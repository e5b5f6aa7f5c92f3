/** What has happened to the lookups so far, and how it is seen in the buffers and pipes: the steps of the
    two sides as they are for any cut of the bytes. */
module DnsHistory {
  import opened Bytes
  import opened DnsLines
  import opened DnsQueue

  const MAX_NAME: nat := 254
  const MAX_ANSWER: nat := 15     // four numbers with dots between them

  /** An address as text; an empty one is none. */
  type Address = t: seq<byte> | IsPlain(t, MAX_ANSWER) witness []

  /** What gethostbyname finds for a name when it is called for the n-th time. */
  type Resolver = (nat, seq<byte>) -> Address

  /** A callback that has been made, with the address it was given; an empty one is the null pointer. */
  datatype Call = Call(callback: Callback, answer: seq<byte>)

  /** All names looked up and the callbacks to be told; the names that the service has dealt with and what
      it found; the callbacks made. */
  datatype History = History(names: seq<seq<byte>>, asked: seq<Callback>,
                             served: seq<seq<byte>>, answers: seq<seq<byte>>, calls: seq<Call>) {
    ghost predicate Valid() {
      && Plain(names, MAX_NAME) && Plain(answers, MAX_ANSWER) && (forall k :: 0 <= k < |names| ==> |names[k]| > 2)
      && |names| == |asked| && |served| == |answers| && |calls| <= |answers| && served <= names
      && forall k :: 0 <= k < |calls| ==> calls[k] == Call(asked[k], answers[k])
    }

    /** What the service found is what there was to find for these names. */
    ghost predicate Found(resolve: Resolver) {
      |served| == |answers| && forall k :: 0 <= k < |answers| ==> answers[k] == resolve(k, served[k])
    }

    /** The names that the service has still to look up are in its buffer, and behind that in the pipe. */
    ghost predicate ToServe(buffer: seq<byte>, pipe: seq<byte>) {
      && |served| <= |names| && Lines(names[|served|..]) == buffer + pipe
    }

    /** The answers that are not passed on yet are in the buffer of the client, and behind that in the
        pipe; the callbacks to be told wait in the list. */
    ghost predicate ToCall(buffer: seq<byte>, pipe: seq<byte>, waiting: seq<Callback>) {
      && |calls| <= |answers| && |calls| <= |asked|
      && Lines(answers[|calls|..]) == buffer + pipe && waiting == asked[|calls|..]
    }

    function Ask(name: seq<byte>, callback: Callback): History {
      this.(names := names + [name], asked := asked + [callback])
    }

    function Answer(name: seq<byte>, answer: seq<byte>): History {
      this.(served := served + [name], answers := answers + [answer])
    }

    function Tell(callback: Callback, answer: seq<byte>): History {
      this.(calls := calls + [Call(callback, answer)])
    }
  }

  lemma Asked(h: History, name: seq<byte>, callback: Callback, buffer: seq<byte>, pipe: seq<byte>,
              mine: seq<byte>, back: seq<byte>, waiting: seq<Callback>)
    requires h.Valid() && h.ToServe(buffer, pipe) && h.ToCall(mine, back, waiting) && IsPlain(name, MAX_NAME)
    requires |name| > 2
    ensures var h' := h.Ask(name, callback);
            && h'.Valid() && h'.ToServe(buffer, pipe + name + [LF]) && h'.ToCall(mine, back, waiting + [callback])
  {
    hide Lines;
    var h' := h.Ask(name, callback);
    assert h'.names[|h.served|..] == h.names[|h.served|..] + [name];
    LinesAppend(h.names[|h.served|..], name);
    assert h'.asked[|h.calls|..] == h.asked[|h.calls|..] + [callback];
    forall i | 0 <= i < |h'.names| ensures IsPlain(h'.names[i], MAX_NAME) && |h'.names[i]| > 2 {
      assert i < |h.names| ==> h'.names[i] == h.names[i];
    }
  }

  /** The first newline in the buffer of the service ends the next name. */
  lemma Answered(h: History, resolve: Resolver, buffer: seq<byte>, pipe: seq<byte>,
                 mine: seq<byte>, back: seq<byte>, waiting: seq<Callback>)
    requires h.Valid() && h.ToServe(buffer, pipe) && h.ToCall(mine, back, waiting)
    requires LF in buffer && h.Found(resolve)
    ensures var i := IndexOf(buffer, LF);
            var answer := resolve(|h.served|, buffer[..i]);
            var h' := h.Answer(buffer[..i], answer);
            && h'.Valid() && h'.Found(resolve) && h'.ToServe(buffer[i + 1..], pipe)
               && h'.ToCall(mine, back + answer + [LF], waiting)
            && h.names[|h.served|..] != [] && buffer[..i] == h.names[|h.served|] && i > 2
  {
    hide IndexOf, Lines;
    var i := IndexOf(buffer, LF);
    var answer := resolve(|h.served|, buffer[..i]);
    var rest := h.names[|h.served|..];
    PlainRest(h.names, |h.served|, MAX_NAME);
    FirstLine(rest, buffer, pipe, MAX_NAME);
    assert rest[0] == h.names[|h.served|];
    assert rest[1..] == h.names[|h.served| + 1..];
    var h' := h.Answer(buffer[..i], answer);
    assert h'.answers[|h.calls|..] == h.answers[|h.calls|..] + [answer];
    LinesAppend(h.answers[|h.calls|..], answer);
    assert h'.served == h.names[..|h.served| + 1];
    forall k | 0 <= k < |h'.answers| ensures IsPlain(h'.answers[k], MAX_ANSWER) {
      assert k < |h.answers| ==> h'.answers[k] == h.answers[k];
    }
  }

  /** The first newline in the buffer of the client ends the answer to the first callback that waits. */
  lemma Told(h: History, buffer: seq<byte>, pipe: seq<byte>, waiting: seq<Callback>)
    requires h.Valid() && h.ToCall(buffer, pipe, waiting) && LF in buffer
    ensures waiting != []
    ensures var i := IndexOf(buffer, LF);
            var h' := h.Tell(waiting[0], buffer[..i]);
            h'.Valid() && h'.ToCall(buffer[i + 1..], pipe, waiting[1..]) && NUL !in buffer[..i]
  {
    var n := |h.calls|;
    var rest := h.answers[n..];
    PlainRest(h.answers, n, MAX_ANSWER);
    FirstLine(rest, buffer, pipe, MAX_ANSWER);
    assert rest[0] == h.answers[n] && IsPlain(rest[0], MAX_ANSWER);
    assert rest[1..] == h.answers[n + 1..];
    assert waiting[0] == h.asked[n] && waiting[1..] == h.asked[n + 1..];
  }

  /** When all newlines are dealt with, both sides have room to read more. */
  lemma AlwaysRoom(h: History, buffer: seq<byte>, pipe: seq<byte>, mine: seq<byte>, back: seq<byte>,
                   waiting: seq<Callback>)
    requires h.Valid() && h.ToServe(buffer, pipe) && h.ToCall(mine, back, waiting)
    ensures LF !in buffer ==> |buffer| <= MAX_NAME
    ensures LF !in mine ==> |mine| <= MAX_ANSWER
  {
    PlainRest(h.names, |h.served|, MAX_NAME);
    PlainRest(h.answers, |h.calls|, MAX_ANSWER);
    if LF !in buffer {
      PartOfLine(h.names[|h.served|..], buffer, pipe, MAX_NAME);
    }
    if LF !in mine {
      PartOfLine(h.answers[|h.calls|..], mine, back, MAX_ANSWER);
    }
  }

  /** As long as a byte is on its way to the client, somebody waits for it. */
  lemma NeverUnwatched(h: History, mine: seq<byte>, back: seq<byte>, waiting: seq<Callback>)
    requires h.Valid() && h.ToCall(mine, back, waiting) && mine + back != []
    ensures waiting != []
  {
    assert h.answers[|h.calls|..] != [];
  }

  /** There are as many lines on their way, either way, as callbacks wait. */
  lemma OneLineEach(h: History, buffer: seq<byte>, pipe: seq<byte>, mine: seq<byte>, back: seq<byte>,
                    waiting: seq<Callback>)
    requires h.Valid() && h.ToServe(buffer, pipe) && h.ToCall(mine, back, waiting)
    ensures Newlines(buffer + pipe) + Newlines(mine + back) == |waiting|
  {
    PlainRest(h.names, |h.served|, MAX_NAME);
    PlainRest(h.answers, |h.calls|, MAX_ANSWER);
    LinesCounted(h.names[|h.served|..], MAX_NAME);
    LinesCounted(h.answers[|h.calls|..], MAX_ANSWER);
  }

  /** A further name leaves it at that if and only if there is no newline in it; else there are more answers
      than callbacks that wait. */
  lemma OneLineMore(h: History, name: seq<byte>, buffer: seq<byte>, pipe: seq<byte>,
                    mine: seq<byte>, back: seq<byte>, waiting: seq<Callback>)
    requires h.Valid() && h.ToServe(buffer, pipe) && h.ToCall(mine, back, waiting)
    ensures Newlines(buffer + (pipe + name + [LF])) + Newlines(mine + back) >= |waiting| + 1
    ensures Newlines(buffer + (pipe + name + [LF])) + Newlines(mine + back) == |waiting| + 1 <==> LF !in name
  {
    OneLineEach(h, buffer, pipe, mine, back, waiting);
    OneLine(name);
    NewlinesAppend(buffer + pipe, name + [LF]);
    assert buffer + (pipe + name + [LF]) == (buffer + pipe) + (name + [LF]);
    NewlinesAppend(name, [LF]);
  }

  /** When nothing is left in pipes and buffers, every lookup has its answer. */
  lemma AllTold(h: History, resolve: Resolver, waiting: seq<Callback>)
    requires h.Valid() && h.Found(resolve) && h.ToServe([], []) && h.ToCall([], [], waiting)
    ensures waiting == [] && |h.calls| == |h.names|
    ensures forall k :: 0 <= k < |h.names| ==> h.calls[k] == Call(h.asked[k], resolve(k, h.names[k]))
  {
    assert |Lines(h.names[|h.served|..])| == 0 && |Lines(h.answers[|h.calls|..])| == 0;
  }

  lemma PlainRest(s: seq<seq<byte>>, n: nat, limit: nat)
    requires Plain(s, limit) && n <= |s|
    ensures Plain(s[n..], limit)
  {
  }
}
