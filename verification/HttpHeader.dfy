/** One header line, taken apart in place. */
module HttpHeader {
  import opened Bytes
  import opened HttpText
  import opened HttpSpec
  import opened HttpBuffer
  import opened HttpState

  /** What has come of a header. */
  twostate predicate HasRead(parser: Parser, r: Read, status: Status)
    reads parser
  {
    parser.message == r.msg && parser.calls == old(parser.calls) + r.events && status == r.status
  }

  /** fdu_http_parse_header. */
  method ParseHeader(parser: Parser, a: array<byte>, startOfName: nat, endOfContent: nat, ghost line: seq<byte>,
                     ghost r: Read)
    returns (status: Status)
    requires startOfName <= endOfContent < a.Length && line == a[startOfName..endOfContent]
    requires r == HttpSpec.ParseHeader(parser.message, line, parser.cfg)
    modifies parser`message, parser`calls, a
    ensures HasRead(parser, r, status)
    ensures OnlyWithin(a, startOfName, endOfContent + 1)
  {
    var colon := Memchr(a, COLON, startOfName, endOfContent);
    if colon == endOfContent {
      return Error(CorruptedHeader);
    }
    ghost var i := colon - startOfName;
    SplitSlice(a, startOfName, colon, endOfContent);
    assert a[startOfName..colon] == line[..i] && a[colon + 1..endOfContent] == line[i + 1..];
    status := ParseParts(parser, a, startOfName, colon, endOfContent, Strip(line[..i]), Strip(line[i + 1..]));
  }

  method ParseParts(parser: Parser, a: array<byte>, from: nat, colon: nat, to: nat, ghost name: seq<byte>,
                    ghost text: seq<byte>)
    returns (status: Status)
    requires from <= colon < to < a.Length && name == Strip(a[from..colon]) && text == Strip(a[colon + 1..to])
    modifies parser`message, parser`calls, a
    ensures HasRead(parser, HeaderParts(old(parser.message), name, text, parser.cfg), status)
    ensures OnlyWithin(a, from, to + 1)
  {
    var n0, n1 := StripBoth(a, from, colon, name);
    if n0 >= n1 {
      return Error(CorruptedHeader);
    }
    status := ParseCut(parser, a, n0, n1, colon + 1, to, text);
  }

  method ParseCut(parser: Parser, a: array<byte>, n0: nat, n1: nat, from: nat, to: nat, ghost text: seq<byte>)
    returns (status: Status)
    requires n0 < n1 < from <= to < a.Length && text == Strip(a[from..to])
    modifies parser`message, parser`calls, a
    ensures HasRead(parser, HeaderNamed(old(parser.message), Lower(old(a[n0..n1])), text, parser.cfg), status)
    ensures OnlyWithin(a, n0, to + 1)
  {
    var c0, c1 := CutHeader(a, n0, n1, from, to, text);
    status := ParseNamed(parser, a, n0, n1, c0, c1);
  }

  /** The name in lower case, the value without white space around it, each with a NUL behind. */
  method CutHeader(a: array<byte>, n0: nat, n1: nat, from: nat, to: nat, ghost value: seq<byte>)
    returns (c0: nat, c1: nat)
    requires n0 < n1 < from <= to < a.Length && value == Strip(a[from..to])
    modifies a
    ensures from <= c0 <= c1 <= to && a[n1] == a[c1] == NUL
    ensures a[n0..n1] == Lower(old(a[n0..n1])) && a[c0..c1] == value
    ensures OnlyWithin(a, n0, to + 1)
  {
    ghost var name, text := a[n0..n1], a[from..to];
    a[n1] := NUL;
    assert a[n0..n1] == name && a[from..to] == text;
    ConvertToLowercase(a, n0, n1);
    assert a[from..to] == text;
    c0, c1 := StripBoth(a, from, to, value);
    a[c1] := NUL;
    assert a[c0..c1] == value;
  }

  /** Which header `a[n0..n1]` names. */
  method Recognize(a: array<byte>, n0: nat, n1: nat) returns (known: Known)
    requires n0 < n1 < a.Length && a[n1] == NUL
    ensures known == KnownName(a[n0..n1])
  {
    known := Unknown;
    if a[n0] == 99 {
      var same := IsString(a, n0, n1, CONNECTION);
      if same {
        return Connection;
      }
      same := IsString(a, n0, n1, CONTENT_LENGTH);
      if same {
        return ContentLength;
      }
      same := IsString(a, n0, n1, CONTENT_TYPE);
      if same {
        return ContentType;
      }
    }
  }

  method ParseNamed(parser: Parser, a: array<byte>, n0: nat, n1: nat, c0: nat, c1: nat) returns (status: Status)
    requires n0 < n1 < c0 <= c1 < a.Length && a[n1] == a[c1] == NUL
    modifies parser`message, parser`calls, a
    ensures HasRead(parser, HeaderNamed(old(parser.message), old(a[n0..n1]), old(a[c0..c1]), parser.cfg), status)
    ensures OnlyWithin(a, c0, c1 + 1)
  {
    var known := Recognize(a, n0, n1);
    status := ParseKnown(parser, a, known, n0, n1, c0, c1, a[n0..n1], a[c0..c1]);
  }

  method ParseKnown(parser: Parser, a: array<byte>, known: Known, n0: nat, n1: nat, c0: nat, c1: nat,
                    ghost name: seq<byte>, ghost text: seq<byte>) returns (status: Status)
    requires n0 < n1 < c0 <= c1 < a.Length && a[c1] == NUL
    requires name == a[n0..n1] && text == a[c0..c1] && known == KnownName(name)
    modifies parser`message, parser`calls, a
    ensures HasRead(parser, HeaderNamed(old(parser.message), name, text, parser.cfg), status)
    ensures OnlyWithin(a, c0, c1 + 1)
  {
    var ok := Note(parser, a, known, c0, c1);
    if !ok {
      return Error(CorruptedContentLength);
    }
    assert a[n0..n1] == name;
    status := Send(parser, a, n0, n1, c0, c1);
  }

  /** The header callback. */
  method Send(parser: Parser, a: array<byte>, n0: nat, n1: nat, c0: nat, c1: nat) returns (status: Status)
    requires n0 <= n1 <= a.Length && c0 <= c1 <= a.Length
    modifies parser`message, parser`calls
    ensures var header := Header(CString(a[n0..n1]), CString(a[c0..c1]));
            && parser.calls == old(parser.calls) + [header]
            && parser.message == old(parser.message).(client := parser.cfg.remember(old(parser.message.client), header))
            && status == if parser.cfg.accept(old(parser.message.client), header) then Underflow else Error(Refused)
  {
    var accepted := parser.Call(Header(CString(a[n0..n1]), CString(a[c0..c1])));
    status := if accepted then Underflow else Error(Refused);
  }

  /** What a known header says is noted; a connection header is put in lower case. */
  method Note(parser: Parser, a: array<byte>, known: Known, c0: nat, c1: nat) returns (ok: bool)
    requires c0 <= c1 < a.Length && a[c1] == NUL
    modifies parser`message, a
    ensures ok <==> !(known == ContentLength && !LengthAccepted(old(a[c0..c1]), parser.cfg.digits))
    ensures ok ==> a[c0..c1] == Told(known, old(a[c0..c1]))
                   && parser.message == Noted(old(parser.message), known, a[c0..c1])
    ensures parser.message.client == old(parser.message.client) && (!ok ==> parser.message == old(parser.message))
    ensures OnlyWithin(a, c0, c1 + 1)
  {
    ok := true;
    match known
    case Connection =>
      ConvertToLowercase(a, c0, c1);
      NoteConnection(parser, a, c0, c1);
    case ContentLength =>
      ok := CheckLength(a, c0, c1, parser.cfg.digits);
      if ok {
        var n := ToNumber(a, c0, c1);
        parser.message := parser.message.(contentLength := n);
      }
    case ContentType =>
      if c1 - c0 >= 1 {
        parser.message := parser.message.(contentType := Overwrite(parser.message.contentType, a[c0..c1]));
      }
    case Unknown =>
  }

  method NoteConnection(parser: Parser, a: array<byte>, c0: nat, c1: nat)
    requires c0 <= c1 < a.Length && a[c1] == NUL
    modifies parser`message
    ensures parser.message == Persistence(old(parser.message), a[c0..c1])
  {
    if parser.message.version == Http10 {
      var keep := IsString(a, c0, c1, KEEP_ALIVE);
      if keep {
        parser.message := parser.message.(closing := false);
      }
    } else if parser.message.version == Http11 {
      var close := IsString(a, c0, c1, CLOSE);
      if close {
        parser.message := parser.message.(closing := true);
      }
    }
  }
}
