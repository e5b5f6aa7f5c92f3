/** A whole request, read back as it is written. */
module HttpReadBack {
  import opened Bytes
  import opened HttpChunks
  import opened HttpPrint
  import opened HttpSpec
  import opened HttpText
  import opened HttpUnfold

  const CONNECTION_NAME: seq<byte> := Ascii("connection")
  const LENGTH_NAME: seq<byte> := Ascii("content-length")
  const TYPE_NAME: seq<byte> := Ascii("content-type")
  const KEEP_ALIVE_VALUE: seq<byte> := Ascii("keep-alive")
  const CLOSE_VALUE: seq<byte> := Ascii("close")

  datatype Field = Field(name: seq<byte>, value: seq<byte>)

  predicate Trimmed(s: seq<byte>) {
    s != [] ==> !Space(s[0]) && !Space(s[|s| - 1])
  }

  predicate IsField(f: Field) {
    && f.name != [] && Trimmed(f.name) && LF !in f.name && COLON !in f.name
    && Trimmed(f.value) && LF !in f.value
  }

  predicate AreFields(fs: seq<Field>) {
    forall i :: 0 <= i < |fs| ==> IsField(fs[i])
  }

  function FieldLine(f: Field): seq<byte> {
    f.name + [COLON, SP] + f.value
  }

  function Written(fs: seq<Field>): seq<byte> {
    if fs == [] then [] else FieldLine(fs[0]) + ([CR, LF] + Written(fs[1..]))
  }

  /** Whether a header has this name, in whatever case. */
  predicate Named(f: Field, name: seq<byte>) {
    CString(Lower(f.name)) == name
  }

  // ----- one header

  lemma StripNone(s: seq<byte>)
    requires Trimmed(s)
    ensures Strip(s) == s && Strip([SP] + s) == s
  {
    var t := [SP] + s;
    if s == [] {
      assert t[..0] == [];
    } else {
      assert t[|t| - 1] == s[|s| - 1] && t[1..] == s;
    }
  }

  lemma {:induction false} FieldRead(msg: Message, f: Field, cfg: Config)
    requires IsField(f)
    ensures ParseHeader(msg, FieldLine(f), cfg) == HeaderNamed(msg, Lower(f.name), f.value, cfg)
  {
    hide HeaderNamed, Strip, Lower;
    var line := FieldLine(f);
    IndexOfUnique(line, COLON, |f.name|);
    assert line[..|f.name|] == f.name && line[|f.name| + 1..] == [SP] + f.value;
    StripNone(f.name);
    StripNone(f.value);
  }

  lemma KnownByName(f: Field)
    ensures KnownName(Lower(f.name)) == Connection <==> Named(f, CONNECTION_NAME)
    ensures KnownName(Lower(f.name)) == ContentLength <==> Named(f, LENGTH_NAME)
    ensures KnownName(Lower(f.name)) == ContentType <==> Named(f, TYPE_NAME)
  {
    assert CONNECTION_NAME == CONNECTION;
    assert LENGTH_NAME == CONTENT_LENGTH;
    assert TYPE_NAME == CONTENT_TYPE;
  }

  /** Callbacks that accept everything. */
  ghost predicate Willing(cfg: Config) {
    forall c, e :: cfg.accept(c, e)
  }

  /** A header with the length of the content is a number of up to 19 digits, and each of them is checked. */
  predicate LengthFine(f: Field, digits: DigitTest) {
    Named(f, LENGTH_NAME) ==>
      && digits == EachByte && 0 < |f.value| < 20
      && forall i :: 0 <= i < |f.value| ==> '0' as int <= f.value[i] <= '9' as int
  }

  predicate LengthsFine(fs: seq<Field>, digits: DigitTest) {
    forall i :: 0 <= i < |fs| ==> LengthFine(fs[i], digits)
  }

  function ValueTold(f: Field): seq<byte> {
    if Named(f, CONNECTION_NAME) then Lower(f.value) else f.value
  }

  /** The callback of a header: its name in lower case, and its value as far as C sees it. */
  function Told(f: Field): Event {
    Header(CString(Lower(f.name)), CString(ValueTold(f)))
  }

  function AllTold(fs: seq<Field>): seq<Event> {
    if fs == [] then [] else [Told(fs[0])] + AllTold(fs[1..])
  }

  function After(msg: Message, f: Field, cfg: Config): Message {
    Noted(msg, KnownName(Lower(f.name)), ValueTold(f)).(client := cfg.remember(msg.client, Told(f)))
  }

  function AfterAll(msg: Message, fs: seq<Field>, cfg: Config): Message
    decreases |fs|
  {
    if fs == [] then msg else AfterAll(After(msg, fs[0], cfg), fs[1..], cfg)
  }

  function EndOfFields(st: State, fs: seq<Field>, cfg: Config): State {
    st.(progress := ContentNotRead, msg := AfterAll(st.msg, fs, cfg))
  }

  lemma {:induction false} FieldTold(msg: Message, f: Field, cfg: Config)
    requires IsField(f) && Willing(cfg) && LengthFine(f, cfg.digits)
    ensures ParseHeader(msg, FieldLine(f), cfg) == Read(After(msg, f, cfg), [Told(f)], Underflow)
  {
    hide Lower, ParseHeader, FieldLine, KnownName, Noted, Named;
    FieldRead(msg, f, cfg);
    KnownByName(f);
  }

  lemma {:induction false} FieldAtFront(f: Field, more: seq<byte>)
    requires IsField(f) && more != [] && !Blank(more[0])
    ensures NextLine([], FieldLine(f) + ([CR, LF] + more)) == FullLine(FieldLine(f), more)
  {
    hide NextLine;
    var line := FieldLine(f);
    assert [] + line == line;
    Ends([], line, [CR, LF], more);
  }

  lemma {:induction false} EndAtFront(more: seq<byte>)
    ensures NextLine([], [CR, LF] + more) == EmptyLine(more)
  {
    hide NextLine;
    var none: seq<byte> := [];
    assert none + ([CR, LF] + more) == [CR, LF] + more && none + none == none;
    Ends(none, none, [CR, LF], more);
  }

  lemma Starts(fs: seq<Field>, rest: seq<byte>)
    requires AreFields(fs)
    ensures var more := Written(fs) + ([CR, LF] + rest); more != [] && !Blank(more[0])
  {
    if fs != [] {
      assert Written(fs)[0] == fs[0].name[0];
    }
  }

  /** Headers are read back as they are written. */
  lemma {:induction false} FieldsRead(st: State, fs: seq<Field>, rest: seq<byte>, cfg: Config)
    requires st.progress == Headers && AreFields(fs) && Willing(cfg) && LengthsFine(fs, cfg.digits)
    ensures ParseHeaders(st, Written(fs) + ([CR, LF] + rest), cfg)
            == Prepend(AllTold(fs), ParseContentStart(EndOfFields(st, fs, cfg), rest, cfg))
    decreases |fs|
  {
    hide NextLine, ParseHeader, After, Told, ParseContentStart, Willing, FieldLine;
    if fs == [] {
      assert Written(fs) + ([CR, LF] + rest) == [CR, LF] + rest;
      EndAtFront(rest);
      NothingFirst(ParseContentStart(st.(progress := ContentNotRead), rest, cfg));
    } else {
      var f, more := fs[0], Written(fs[1..]) + ([CR, LF] + rest);
      var st' := st.(msg := After(st.msg, f, cfg));
      FirstField(fs, rest);
      Starts(fs[1..], rest);
      FieldAtFront(f, more);
      FieldTold(st.msg, f, cfg);
      FieldsRead(st', fs[1..], rest, cfg);
      Twice([Told(f)], AllTold(fs[1..]), ParseContentStart(EndOfFields(st', fs[1..], cfg), rest, cfg));
    }
  }

  lemma FirstField(fs: seq<Field>, rest: seq<byte>)
    requires fs != []
    ensures Written(fs) + ([CR, LF] + rest) == FieldLine(fs[0]) + ([CR, LF] + (Written(fs[1..]) + ([CR, LF] + rest)))
  {
  }

  lemma NothingFirst(o: Outcome)
    ensures Prepend([], o) == o
  {
    assert [] + o.events == o.events;
  }

  lemma Twice(e: seq<Event>, f: seq<Event>, o: Outcome)
    ensures Prepend(e, Prepend(f, o)) == Prepend(e + f, o)
  {
    Grouped(e, f, o.events);
  }

  /** Only a header of the wrong length is refused by the parser itself, and before its callback. */
  lemma {:induction false} FieldRefused(msg: Message, f: Field, cfg: Config)
    requires IsField(f)
    ensures var r := ParseHeader(msg, FieldLine(f), cfg);
            && (!LengthFine(f, cfg.digits) ==> r == Read(msg, [], Error(CorruptedContentLength)))
            && (LengthFine(f, cfg.digits) ==>
                  r.events == [Told(f)] && r.status == if cfg.accept(msg.client, Told(f)) then Underflow
                    else Error(Refused))
  {
    hide Lower, ParseHeader, FieldLine, KnownName, Noted, Named;
    FieldRead(msg, f, cfg);
    KnownByName(f);
  }

  /** Whether a line has a colon, with more than white space in front of it. */
  ghost predicate HasName(line: seq<byte>) {
    exists i :: 0 <= i < IndexOf(line, COLON) < |line| && !Space(line[i])
  }

  /** Other lines are no headers. */
  lemma {:induction false} NoHeader(msg: Message, line: seq<byte>, cfg: Config)
    ensures !HasName(line) <==> ParseHeader(msg, line, cfg).status == Error(CorruptedHeader)
  {
    hide HeaderNamed;
    var i := IndexOf(line, COLON);
    if i < |line| {
      StripsAll(line[..i]);
      NamedIsNot(msg, Lower(Strip(line[..i])), Strip(line[i + 1..]), cfg);
    }
  }

  lemma NamedIsNot(msg: Message, name: seq<byte>, text: seq<byte>, cfg: Config)
    ensures HeaderNamed(msg, name, text, cfg).status != Error(CorruptedHeader)
  {
  }

  lemma {:induction false} StripsAll(s: seq<byte>)
    ensures Strip(s) == [] <==> forall i :: 0 <= i < |s| ==> Space(s[i])
  {
    EndStripped(s);
    StartStripped(StripEnd(s));
  }

  lemma {:induction false} EndStripped(s: seq<byte>)
    ensures StripEnd(s) <= s && forall i :: |StripEnd(s)| <= i < |s| ==> Space(s[i])
    decreases |s|
  {
    if s != [] && Space(s[|s| - 1]) {
      EndStripped(s[..|s| - 1]);
      assert s == s[..|s| - 1] + [s[|s| - 1]];
    }
  }

  lemma {:induction false} StartStripped(s: seq<byte>)
    ensures StripStart(s) == [] <==> forall i :: 0 <= i < |s| ==> Space(s[i])
    decreases |s|
  {
    if s != [] && Space(s[0]) {
      StartStripped(s[1..]);
      assert forall i :: 0 < i < |s| ==> s[i] == s[1..][i - 1];
    }
  }

  lemma {:induction false} EndsStripped(s: seq<byte>)
    ensures StripEnd(s) != [] ==> !Space(StripEnd(s)[|StripEnd(s)| - 1])
    decreases |s|
  {
    if s != [] && Space(s[|s| - 1]) {
      EndsStripped(s[..|s| - 1]);
    }
  }

  lemma {:induction false} StartsStripped(s: seq<byte>) returns (i: nat)
    ensures i <= |s| && StripStart(s) == s[i..] && (forall k :: 0 <= k < i ==> Space(s[k]))
    ensures i < |s| ==> !Space(s[i])
    decreases |s|
  {
    i := 0;
    if s != [] && Space(s[0]) {
      i := StartsStripped(s[1..]);
      assert forall k :: 0 < k <= i ==> s[k] == s[1..][k - 1];
      i := i + 1;
    }
  }

  /** Stripping takes all of the white space at both ends, and nothing else. */
  lemma {:induction false} StripMeans(s: seq<byte>) returns (i: nat, j: nat)
    ensures i <= j <= |s| && Strip(s) == s[i..j] && (i < j ==> !Space(s[i]) && !Space(s[j - 1]))
    ensures forall k :: 0 <= k < i || j <= k < |s| ==> Space(s[k])
  {
    EndStripped(s);
    EndsStripped(s);
    var t := StripEnd(s);
    j := |t|;
    i := StartsStripped(t);
    assert s[..j] == t;
  }

  // ----- what the headers mean

  predicate Says(f: Field, name: seq<byte>, value: seq<byte>) {
    Named(f, name) && CString(Lower(f.value)) == value
  }

  lemma {:induction false} OneCloses(msg: Message, f: Field, cfg: Config)
    ensures var m := After(msg, f, cfg);
            && m.method_ == msg.method_ && m.version == msg.version
            && (msg.version == Http10 ==> (m.closing <==> msg.closing && !Says(f, CONNECTION_NAME, KEEP_ALIVE_VALUE)))
            && (msg.version == Http11 ==> (m.closing <==> msg.closing || Says(f, CONNECTION_NAME, CLOSE_VALUE)))
  {
    hide Lower, KnownName, CString, Named;
    KnownByName(f);
    assert KEEP_ALIVE_VALUE == KEEP_ALIVE && CLOSE_VALUE == CLOSE;
  }

  /** The connection is kept with version 1.0 if and only if a header says keep-alive, and with version 1.1
      if and only if none says close, given what the request line has left. */
  lemma {:induction false} ClosingMeans(msg: Message, fs: seq<Field>, cfg: Config)
    ensures var m := AfterAll(msg, fs, cfg);
            && m.method_ == msg.method_ && m.version == msg.version
            && (msg.version == Http10 ==>
                  (m.closing <==> msg.closing && forall f :: f in fs ==> !Says(f, CONNECTION_NAME, KEEP_ALIVE_VALUE)))
            && (msg.version == Http11 ==>
                  (m.closing <==> msg.closing || exists f :: f in fs && Says(f, CONNECTION_NAME, CLOSE_VALUE)))
    decreases |fs|
  {
    hide After, Says;
    if fs != [] {
      OneCloses(msg, fs[0], cfg);
      ClosingMeans(After(msg, fs[0], cfg), fs[1..], cfg);
      assert fs == [fs[0]] + fs[1..];
    }
  }

  /** A number in decimal digits. */
  function Number(n: nat): (s: seq<byte>)
    ensures s != [] && forall i :: 0 <= i < |s| ==> '0' as int <= s[i] <= '9' as int
  {
    if n < 10 then ['0' as int + n] else Number(n / 10) + ['0' as int + n % 10]
  }

  lemma {:induction false} NumberBack(n: nat)
    ensures AllDigits(Number(n)) && Decimal(Number(n)) == n
  {
    if n >= 10 {
      NumberBack(n / 10);
      assert Number(n)[..|Number(n)| - 1] == Number(n / 10);
    } else {
      assert Number(n)[..0] == [];
    }
  }

  lemma {:induction false} OneLength(msg: Message, f: Field, n: nat, cfg: Config)
    ensures !Named(f, LENGTH_NAME) ==> After(msg, f, cfg).contentLength == msg.contentLength
    ensures Named(f, LENGTH_NAME) && f.value == Number(n) && n < 0x1_0000_0000 ==>
              After(msg, f, cfg).contentLength == n
  {
    hide Lower, KnownName, Named, AllDigits, Decimal, Number;
    KnownByName(f);
    NumberBack(n);
    assert CONNECTION_NAME != LENGTH_NAME by {
      assert |CONNECTION_NAME| != |LENGTH_NAME|;
    }
  }

  /** The length of the content is what the last header with that name says, if there is one. */
  lemma {:induction false} LengthMeans(msg: Message, fs: seq<Field>, k: nat, n: nat, cfg: Config)
    requires k <= |fs| && forall i :: k < i < |fs| ==> !Named(fs[i], LENGTH_NAME)
    ensures k == |fs| && (forall f :: f in fs ==> !Named(f, LENGTH_NAME)) ==>
              AfterAll(msg, fs, cfg).contentLength == msg.contentLength
    ensures k < |fs| && Named(fs[k], LENGTH_NAME) && fs[k].value == Number(n) && n < 0x1_0000_0000 ==>
              AfterAll(msg, fs, cfg).contentLength == n
    decreases |fs|
  {
    hide After, Named, Number;
    if fs != [] {
      OneLength(msg, fs[0], n, cfg);
      var msg', rest := After(msg, fs[0], cfg), fs[1..];
      if k == 0 {
        LengthMeans(msg', rest, |rest|, n, cfg);
      } else {
        LengthMeans(msg', rest, k - 1, n, cfg);
      }
    }
  }

  // ----- whole requests

  function RequestWritten(m: Method, url: seq<byte>, v: Version, fs: seq<Field>, content: seq<byte>): seq<byte>
    requires m != NoMethod && v != NoVersion
  {
    var line := MethodName(m) + [SP] + url + [SP] + VersionName(v);
    line + ([CR, LF] + (Written(fs) + ([CR, LF] + content)))
  }

  /** A request with content of the length that its headers say is read back by one call of a parser that
      starts a message: method, url and version, each header, and the content, with what follows it left. */
  lemma {:induction false} RequestReadBack(client: Client, memory: TypeBuffer, m: Method, url: seq<byte>, v: Version,
                                           fs: seq<Field>, content: seq<byte>, more: seq<byte>, cfg: Config)
    requires m != NoMethod && v != NoVersion && SP !in url && LF !in url && AreFields(fs)
    requires Willing(cfg) && LengthsFine(fs, cfg.digits) && |content| <= 65536
    requires AfterAll(Begun(Start(client, memory), m, url, v, cfg).msg, fs, cfg).contentLength == |content|
    ensures var o := Parse(Start(client, memory), RequestWritten(m, url, v, fs, content + more), cfg);
            && o.events == [Url(m, url), VersionSeen(v)] + AllTold(fs)
               + (if content == [] then [] else [Content(content)])
            && o.rest == more && o.st.progress == Done && o.status == (if content == [] then Underflow else Complete)
            && o.st.msg.(client := 0) == AfterAll(Begun(Start(client, memory), m, url, v, cfg).msg, fs,
                                                  cfg).(client := 0)
  {
    hide Parse, ParseHeaders, AllTold, AfterAll, AreFields, LengthsFine, Written, MethodName, VersionName, Begun;
    var st, line := Start(client, memory), MethodName(m) + [SP] + url + [SP] + VersionName(v);
    var begun := Begun(st, m, url, v, cfg);
    NoLineEnd(m, url, v);
    LineDone(st, line, [CR, LF], Written(fs) + ([CR, LF] + (content + more)), cfg, m, url, v);
    BegunHeaders(st, m, url, v, cfg);
    FieldsRead(begun, fs, content + more, cfg);
    ContentRead(EndOfFields(begun, fs, cfg), content, more, cfg);
  }

  lemma BegunHeaders(st: State, m: Method, url: seq<byte>, v: Version, cfg: Config)
    ensures Begun(st, m, url, v, cfg).progress == Headers && Begun(st, m, url, v, cfg).loaded == st.loaded
  {
  }

  lemma NoLineEnd(m: Method, url: seq<byte>, v: Version)
    requires m != NoMethod && v != NoVersion && LF !in url && SP !in url
    ensures LF !in MethodName(m) + [SP] + url + [SP] + VersionName(v)
    ensures Asks(MethodName(m) + [SP] + url + [SP] + VersionName(v), m, url, VersionName(v))
  {
    VersionIs(v, VersionName(v));
  }

  lemma {:induction false} ContentRead(st: State, content: seq<byte>, more: seq<byte>, cfg: Config)
    requires st.progress == ContentNotRead && st.loaded == 0 && st.msg.contentLength == |content| <= 65536
             && Willing(cfg)
    ensures var o := ParseContentStart(st, content + more, cfg);
            && o.events == (if content == [] then [] else [Content(content)])
            && o.rest == more && o.st.progress == Done && o.status == (if content == [] then Underflow else Complete)
            && o.st.msg.(client := 0) == st.msg.(client := 0)
  {
    if content == [] {
      assert content + more == more;
    } else {
      ContentAtOnce(st, content + more, cfg);
      assert (content + more)[..|content|] == content && (content + more)[|content|..] == more;
    }
  }

  /** Longer content is refused as soon as the headers have ended. */
  lemma TooMuch(st: State, rest: seq<byte>, cfg: Config)
    requires st.progress == ContentNotRead
    ensures Parse(st, rest, cfg).status == Error(TooLongContent) <==> st.msg.contentLength > 65536
  {
  }
}
