/** A buffer in which requests are received and parsed: what a call of the parser leaves is moved to
    the front, and the next bytes are read behind it. */
module HttpFeed {
  import opened Bytes
  import opened HttpSpec
  import opened HttpBuffer
  import opened HttpState
  import HttpChunks
  import HttpParser
  import HttpRequests

  /** Where a connection stands after some chunks, if it has come to the outcome `o`. */
  ghost predicate Stands(parser: Parser, data: array<byte>, filled: nat, o: Outcome, base: seq<Event>, status: Status)
    reads parser, data
  {
    && filled <= data.Length && parser.State() == o.st && parser.calls == base + o.events && status == o.status
    && (status.Error? || data[..filled] == o.rest)
  }

  /** Bytes are read behind those that are there. */
  method Receive(data: array<byte>, filled: nat, chunk: seq<byte>) returns (filled': nat)
    requires filled + |chunk| <= data.Length
    modifies data
    ensures filled' == filled + |chunk| && data[..filled'] == old(data[..filled]) + chunk
  {
    var i := 0;
    while i < |chunk|
      invariant i <= |chunk| && data[..filled] == old(data[..filled]) && data[filled..filled + i] == chunk[..i]
    {
      data[filled + i] := chunk[i];
      i := i + 1;
    }
    filled' := filled + |chunk|;
    assert data[..filled'] == data[..filled] + data[filled..filled'];
  }

  /** What is left after a call goes to the front. */
  method MoveToFront(data: array<byte>, begin: nat, end: nat) returns (filled: nat)
    requires begin <= end <= data.Length
    modifies data
    ensures filled == end - begin && data[..filled] == old(data[begin..end])
  {
    filled := end - begin;
    if filled > 0 && begin > 0 {
      Memmove(data, 0, begin, filled);
    }
    assert data[..filled] == data[0..filled];
  }

  /** The parser is run on what is there. */
  method ParseBuffer(parser: Parser, data: array<byte>, filled: nat, ghost o: Outcome)
    returns (filled': nat, status: Status)
    requires filled <= data.Length && o == Parse(parser.State(), data[..filled], parser.cfg)
    modifies parser, data
    ensures filled' <= filled && Stands(parser, data, filled', o, old(parser.calls), status)
  {
    assert data[..filled] == data[0..filled];
    var begin, end;
    begin, end, status := HttpParser.ParseRequest(parser, data, 0, filled);
    filled' := MoveToFront(data, begin, end);
  }

  /** The next request: the parser is cleared and run on what is there. It does what a new one would. */
  method ParseNext(parser: Parser, data: array<byte>, filled: nat, ghost memory: TypeBuffer)
    returns (filled': nat, status: Status, ghost o: Outcome)
    requires filled <= data.Length
    modifies parser, data
    ensures filled' <= filled && Stands(parser, data, filled', o, old(parser.calls), status)
    ensures var new_ := Start(old(parser.message.client), memory);
            HttpRequests.SameButType(o, Parse(new_, old(data[..filled]), parser.cfg))
  {
    parser.Clear();
    HttpRequests.ParseButType(parser.State(), memory[0 := NUL], data[..filled], parser.cfg);
    o := Parse(parser.State(), data[..filled], parser.cfg);
    filled', status := ParseBuffer(parser, data, filled, o);
  }

  /** A chunk is received and parsed with what was left before: the outcome `o` goes on to the next. */
  method OneChunk(parser: Parser, data: array<byte>, filled: nat, chunk: seq<byte>, ghost o: Outcome,
                  ghost base: seq<Event>)
    returns (filled': nat, status: Status)
    requires filled + |chunk| <= data.Length && !o.status.Error? && Stands(parser, data, filled, o, base, o.status)
    modifies parser, data
    ensures filled' <= filled + |chunk|
    ensures Stands(parser, data, filled', HttpChunks.Continue(o, chunk, parser.cfg), base, status)
  {
    var n := Receive(data, filled, chunk);
    filled', status := ParseRest(parser, data, n, o.events, base, Parse(parser.State(), data[..n], parser.cfg));
  }

  method ParseRest(parser: Parser, data: array<byte>, filled: nat, ghost made: seq<Event>, ghost base: seq<Event>,
                   ghost next: Outcome)
    returns (filled': nat, status: Status)
    requires filled <= data.Length && next == Parse(parser.State(), data[..filled], parser.cfg)
             && parser.calls == base + made
    modifies parser, data
    ensures filled' <= filled && Stands(parser, data, filled', Prepend(made, next), base, status)
  {
    filled', status := ParseBuffer(parser, data, filled, next);
    Grouped(base, made, next.events);
  }

  /** Chunk after chunk, until there is an error or no room: what the connection has come to is what
      HttpChunks.FeedAll says of the first `k` chunks, and so what one call would say of them all at once. */
  method Feed(parser: Parser, data: array<byte>, chunks: seq<seq<byte>>) returns (filled: nat, status: Status, k: nat)
    modifies parser, data
    ensures k <= |chunks| && (k < |chunks| ==> status.Error? || filled + |chunks[k]| > data.Length)
    ensures Stands(parser, data, filled, HttpChunks.FeedAll(old(parser.State()), chunks[..k], parser.cfg),
                   old(parser.calls), status)
  {
    filled, status, k := 0, Underflow, 0;
    ghost var st, base, o := parser.State(), parser.calls, Outcome(parser.State(), [], [], Underflow);
    while k < |chunks| && !status.Error? && filled + |chunks[k]| <= data.Length
      invariant k <= |chunks| && Stands(parser, data, filled, o, base, status)
      invariant o == HttpChunks.FeedAll(st, chunks[..k], parser.cfg)
    {
      assert chunks[..k + 1][..k] == chunks[..k];
      o := HttpChunks.Continue(o, chunks[k], parser.cfg);
      filled, status := OneChunk(parser, data, filled, chunks[k], HttpChunks.FeedAll(st, chunks[..k], parser.cfg),
                                 base);
      k := k + 1;
    }
  }
}
