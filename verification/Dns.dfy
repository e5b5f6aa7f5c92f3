/** DNS lookups from end to end: the client in utils.c, two pipes, and the process of dns-service.c. The
    pipes deliver their bytes in any pieces, and the two sides take their steps in any order. */
module Dns {
  import opened Bufio
  import opened Bytes
  import opened DnsHistory
  import opened DnsLines
  import opened DnsQueue
  import opened DnsWaiters

  const BUFFER_SIZE: nat := 256

  /** The pipes, those who wait, and whether the dispatcher watches the input from the service. */
  class Link {
    const waiters: Waiters
    const resolve: Resolver
    var lookups: nat            // how often the service has called gethostbyname
    var registered: bool
    var toService: seq<byte>
    var toClient: seq<byte>
    ghost var history: History

    ghost predicate Fits(mine: seq<byte>, its: seq<byte>)
      reads this, waiters, waiters.queue, waiters.pool, waiters.nodes
    {
      Watched() && Matches(mine, its)
    }

    /** The input is watched just while somebody waits. */
    ghost predicate Watched()
      reads `registered, waiters, waiters.queue, waiters.pool, waiters.nodes
    {
      waiters.Valid() && registered == (waiters.queue.waiting != [])
    }

    /** The history fits the pipes, those who wait, and what the two sides have in their buffers. */
    ghost predicate Matches(mine: seq<byte>, its: seq<byte>)
      reads `history, `lookups, `toService, `toClient, waiters.queue`waiting
    {
      history.Valid() && history.Found(resolve) && lookups == |history.served| && history.ToServe(its, toService)
        && history.ToCall(mine, toClient, waiters.queue.waiting)
    }

    /** fdu_dns_service_start: a service that waits, two empty pipes. */
    constructor (resolve: Resolver)
      ensures Fits([], []) && history == History([], [], [], [], []) && this.resolve == resolve
      ensures fresh(waiters) && fresh(waiters.queue) && fresh(waiters.pool) && fresh(waiters.nodes)
    {
      waiters := new Waiters();
      this.resolve, lookups := resolve, 0;
      registered, toService, toClient := false, [], [];
      history := History([], [], [], [], []);
    }

    /** fdu_dnsserv_lookup: the name goes to the service, and the callback waits behind the others, if there
        is an unused node or memory for one. All stays right, whatever the two sides have at hand, `mine` and `its`, if
        and only if a name that was sent has no newline and its callback waits: else there are more lines
        on their way than callbacks wait. */
    method Lookup(name: seq<byte>, callback: Callback, memory: bool, ghost mine: seq<byte>, ghost its: seq<byte>)
        returns (ok: bool)
      requires Fits(mine, its) && NUL !in name
      modifies this, waiters, waiters.queue, waiters.pool, waiters.nodes
      ensures Watched() && fresh(waiters.nodes - old(waiters.nodes)) && toClient == old(toClient)
      ensures ok == (2 < |name| < 255 && (old(waiters.pool.items) != [] || memory))
      ensures toService == old(toService) + if 2 < |name| < 255 then name + [LF] else []
      ensures waiters.queue.waiting == old(waiters.queue.waiting) + if ok then [callback] else []
      ensures history == if ok && LF !in name then old(history).Ask(name, callback) else old(history)
      ensures Fits(mine, its) <==> !(2 < |name| < 255) || (ok && LF !in name)
      ensures Balanced(mine, its) <==> !(2 < |name| < 255) || (ok && LF !in name)
    {
      hide Link.Matches, Link.Balanced;
      if |name| <= 2 || |name| >= 255 {
        FitsBalanced(mine, its);
        return false;
      }
      ok := Ask(name, callback, waiters.pool.head != null || memory, mine, its);
    }

    /** There are as many lines on their way, either way, as callbacks wait. */
    ghost predicate Balanced(mine: seq<byte>, its: seq<byte>)
      reads `toService, `toClient, waiters.queue`waiting
    {
      Newlines(its + toService) + Newlines(mine + toClient) == |waiters.queue.waiting|
    }

    lemma FitsBalanced(mine: seq<byte>, its: seq<byte>)
      requires Fits(mine, its)
      ensures Balanced(mine, its)
    {
      OneLineEach(history, its, toService, mine, toClient, waiters.queue.waiting);
    }

    method Ask(name: seq<byte>, callback: Callback, memory: bool, ghost mine: seq<byte>, ghost its: seq<byte>)
        returns (ok: bool)
      requires Fits(mine, its) && NUL !in name && 2 < |name| <= MAX_NAME
      modifies this, waiters, waiters.queue, waiters.pool, waiters.nodes
      ensures Watched() && fresh(waiters.nodes - old(waiters.nodes)) && toClient == old(toClient) && ok == memory
      ensures toService == old(toService) + name + [LF]
      ensures waiters.queue.waiting == old(waiters.queue.waiting) + if memory then [callback] else []
      ensures history == if memory && LF !in name then old(history).Ask(name, callback) else old(history)
      ensures Matches(mine, its) <==> memory && LF !in name
      ensures Balanced(mine, its) <==> memory && LF !in name
    {
      hide History.Valid, History.ToServe, History.ToCall, History.Found, Newlines, Link.Watched;
      OneLineMore(history, name, its, toService, mine, toClient, waiters.queue.waiting);
      Send(name, callback, memory, mine, its);
      if memory {
        Enlist(callback);
      }
      if !(memory && LF !in name) && Matches(mine, its) {
        OneLineEach(history, its, toService, mine, toClient, waiters.queue.waiting);
      }
      ok := memory;
    }

    /** The name is written to the pipe. */
    method Send(name: seq<byte>, ghost callback: Callback, ghost memory: bool, ghost mine: seq<byte>,
                ghost its: seq<byte>)
      requires Matches(mine, its) && NUL !in name && 2 < |name| <= MAX_NAME
      modifies `toService, `history
      ensures toService == old(toService) + name + [LF]
      ensures history == if memory && LF !in name then old(history).Ask(name, callback) else old(history)
      ensures history.Found(resolve) && lookups == |history.served|
      ensures memory && LF !in name ==> history.Valid() && history.ToServe(its, toService)
                                        && history.ToCall(mine, toClient, waiters.queue.waiting + [callback])
    {
      toService := toService + name + [LF];
      if memory && LF !in name {
        Asked(history, name, callback, its, old(toService), mine, toClient, waiters.queue.waiting);
        history := history.Ask(name, callback);
      }
    }

    /** The input is watched as soon as there is one who waits. */
    method Enlist(callback: Callback)
      requires Watched()
      modifies `registered, waiters, waiters.queue, waiters.pool, waiters.nodes
      ensures Watched() && fresh(waiters.nodes - old(waiters.nodes))
      ensures waiters.queue.waiting == old(waiters.queue.waiting) + [callback]
    {
      var first := waiters.Join(callback);
      if first {
        registered := true;
      }
    }

    /** What the user does from a callback, or at any other time: look up names. */
    method Callback(ghost mine: seq<byte>, ghost its: seq<byte>)
      requires Fits(mine, its)
      modifies this, waiters, waiters.queue, waiters.pool, waiters.nodes
      ensures Fits(mine, its) && fresh(waiters.nodes - old(waiters.nodes))
      ensures history.calls == old(history.calls) && toClient == old(toClient)
    {
      hide Link.Matches, Link.Balanced, Link.Watched;
      var count: nat := *;
      while count > 0
        invariant Fits(mine, its) && fresh(waiters.nodes - old(waiters.nodes))
        invariant history.calls == old(history.calls) && toClient == old(toClient)
      {
        var name: seq<byte>, callback: Callback := *, *;
        if LF !in name && NUL !in name {
          var _ := Lookup(name, callback, true, mine, its);
        }
        count := count - 1;
      }
    }

    /** The query at the front is told what came for it: the first line of what the client has. */
    method Tell(answer: seq<byte>, ghost mine: seq<byte>, ghost rest: seq<byte>, ghost its: seq<byte>)
        returns (ghost callback: Callback)
      requires Fits(mine, its) && LF in mine && answer == mine[..IndexOf(mine, LF)]
               && rest == mine[IndexOf(mine, LF) + 1..]
      modifies this, waiters, waiters.queue, waiters.pool, waiters.nodes
      ensures Fits(rest, its) && fresh(waiters.nodes - old(waiters.nodes))
      ensures history.calls == old(history.calls) + [Call(callback, answer)] && toClient == old(toClient)
    {
      callback := Settle(answer, mine, rest, its);
      Callback(rest, its);
    }

    method Settle(ghost answer: seq<byte>, ghost mine: seq<byte>, ghost rest: seq<byte>, ghost its: seq<byte>)
        returns (callback: Callback)
      requires Fits(mine, its) && LF in mine && answer == mine[..IndexOf(mine, LF)]
               && rest == mine[IndexOf(mine, LF) + 1..]
      modifies `history, `registered, waiters, waiters.queue, waiters.pool, waiters.nodes
      ensures Fits(rest, its) && waiters.nodes == old(waiters.nodes)
      ensures history.calls == old(history.calls) + [Call(callback, answer)]
    {
      Told(history, mine, toClient, waiters.queue.waiting);
      ghost var all := waiters.queue.waiting;
      callback := Leave();
      assert all[0] == callback && all[1..] == waiters.queue.waiting;
      history := history.Tell(callback, answer);
    }

    /** The first query is taken off the list; when it was the last one, the input is not watched any more. */
    method Leave() returns (callback: Callback)
      requires Watched() && waiters.queue.waiting != []
      modifies `registered, waiters, waiters.queue, waiters.pool, waiters.nodes
      ensures Watched() && waiters.nodes == old(waiters.nodes)
      ensures [callback] + waiters.queue.waiting == old(waiters.queue.waiting)
    {
      var empty: bool;
      callback, empty := waiters.Leave();
      if empty {
        registered := false;
      }
    }
  }

  /** do_name_lookup. It asks for no name of less than three bytes. */
  method DoNameLookup(link: Link, name: seq<byte>) returns (answer: seq<byte>)
    modifies link`lookups
    ensures answer == if |name| < 3 then [] else link.resolve(old(link.lookups), name)
    ensures link.lookups == old(link.lookups) + if |name| < 3 then 0 else 1
  {
    answer := [];
    if |name| >= 3 {
      answer := link.resolve(link.lookups, name);
      link.lookups := link.lookups + 1;
    }
  }

  // ----- the service

  /** The loop of main in dns-service.c reads as much as there is room for, and at least one byte; a full
      buffer is thrown away before. */
  method ReadMore(link: Link, buffer: Buffer, n: nat)
    requires buffer.Valid() && buffer.data.Length == BUFFER_SIZE && 0 < n <= |link.toService|
    modifies link`toService, buffer, buffer.data
    ensures buffer.Valid() && buffer.filled > 0
    ensures var had := if old(buffer.filled) == BUFFER_SIZE then [] else old(buffer.Contents());
            && buffer.Contents() + link.toService == had + old(link.toService)
            && buffer.filled > |had|
  {
    if buffer.filled == BUFFER_SIZE {
      buffer.filled := 0;
    }
    var k := if n <= buffer.Room() then n else buffer.Room();
    ghost var had, pipe := buffer.Contents(), link.toService;
    buffer.Append(link.toService[..k]);
    link.toService := link.toService[k..];
    Moved(had, pipe, k);
  }

  /** Whatever the client sends, the service never throws anything away. */
  method ServiceRead(link: Link, buffer: Buffer, n: nat, ghost mine: seq<byte>)
    requires buffer.Valid() && buffer.data.Length == BUFFER_SIZE && link.Matches(mine, buffer.Contents())
    requires LF !in buffer.Contents() && 0 < n <= |link.toService|
    modifies link`toService, buffer, buffer.data
    ensures buffer.Valid() && link.Matches(mine, buffer.Contents())
    ensures buffer.Contents() + link.toService == old(buffer.Contents() + link.toService)
    ensures buffer.filled > old(buffer.filled)
  {
    AlwaysRoom(link.history, buffer.Contents(), link.toService, mine, link.toClient, link.waiters.queue.waiting);
    ReadMore(link, buffer, n);
  }

  /** One turn of the inner loop: the first name is cut off, looked up and answered. */
  method ServiceAnswer(link: Link, buffer: Buffer, ghost mine: seq<byte>)
    requires buffer.Valid() && link.Matches(mine, buffer.Contents()) && LF in buffer.Contents()
    modifies link`toClient, link`history, link`lookups, buffer, buffer.data
    ensures buffer.Valid() && link.Matches(mine, buffer.Contents())
    ensures var name := old(buffer.Contents())[..IndexOf(old(buffer.Contents()), LF)];
            link.toClient == old(link.toClient) + link.resolve(old(link.lookups), name) + [LF]
    ensures buffer.Contents() == old(buffer.Contents())[IndexOf(old(buffer.Contents()), LF) + 1..]
    ensures link.history.calls == old(link.history.calls) && old(link.history.served) < link.history.served
  {
    ghost var had := buffer.Contents();
    NameCut(link.history, had, link.toService);
    var name := CutName(buffer);
    Answered(link.history, link.resolve, had, link.toService, mine, link.toClient, link.waiters.queue.waiting);
    var answer := DoNameLookup(link, name);
    link.toClient := link.toClient + answer + [LF];
    link.history := link.history.Answer(name, answer);
  }

  /** The newline becomes the end of the name; what is behind it moves to the front. */
  method CutName(buffer: Buffer) returns (name: seq<byte>)
    requires buffer.Valid() && LF in buffer.Contents() && NUL !in buffer.Contents()[..IndexOf(buffer.Contents(), LF)]
    modifies buffer, buffer.data
    ensures buffer.Valid() && old(buffer.Contents()) == name + [LF] + buffer.Contents()
    ensures name == old(buffer.Contents())[..IndexOf(old(buffer.Contents()), LF)]
  {
    hide IndexOf;
    ghost var had := buffer.Contents();
    var i := Memchr(buffer.data, LF, 0, buffer.filled);
    assert buffer.data[0..buffer.filled] == had;
    buffer.data[i] := NUL;
    assert buffer.data[..i] == had[..i];
    IndexOfUnique(buffer.data[..], NUL, i);
    name := CString(buffer.data[..]);
    assert buffer.Contents()[i + 1..] == had[i + 1..];
    buffer.Drop(i + 1);
    CutAt(had, LF);
  }

  lemma NameCut(h: History, buffer: seq<byte>, pipe: seq<byte>)
    requires h.Valid() && h.ToServe(buffer, pipe) && LF in buffer
    ensures NUL !in buffer[..IndexOf(buffer, LF)]
  {
    PlainRest(h.names, |h.served|, MAX_NAME);
    FirstLine(h.names[|h.served|..], buffer, pipe, MAX_NAME);
    assert IsPlain(h.names[|h.served|..][0], MAX_NAME);
  }

  // ----- the client

  /** No full line is left in the buffer of the client. */
  ghost predicate Resting(buffer: Buffer)
    reads buffer, buffer.data
  {
    buffer.Valid() && buffer.data.Length == BUFFER_SIZE && LF !in buffer.Contents()
  }

  method CutEntry(buffer: Buffer, entry: nat, eol: nat) returns (answer: seq<byte>)
    requires buffer.Valid() && entry <= eol < buffer.filled && NUL !in buffer.data[entry..eol]
    modifies buffer.data
    ensures answer == old(buffer.data[entry..eol])
    ensures buffer.data[eol + 1..buffer.filled] == old(buffer.data[entry..buffer.filled])[eol - entry + 1..]
  {
    buffer.data[eol] := NUL;
    ghost var rest := buffer.data[entry..];
    assert rest[..eol - entry] == old(buffer.data[entry..eol]);
    IndexOfUnique(rest, NUL, eol - entry);
    answer := CString(buffer.data[entry..]);
  }

  lemma AnswerCut(h: History, mine: seq<byte>, back: seq<byte>, waiting: seq<Callback>)
    requires h.Valid() && h.ToCall(mine, back, waiting) && LF in mine
    ensures NUL !in mine[..IndexOf(mine, LF)] && waiting != []
  {
    Told(h, mine, back, waiting);
  }

  lemma SliceOf(s: seq<byte>, i: nat, j: nat, k: nat)
    requires i <= j < k <= |s|
    ensures s[i..k][..j - i] == s[i..j] && s[i..k][j - i + 1..] == s[j + 1..k]
  {
  }

  /** What is not passed on yet, `rest`, starts at `consumed`; its first newline is at `ptr`. */
  ghost predicate At(link: Link, buffer: Buffer, consumed: nat, ptr: int, rest: seq<byte>, its: seq<byte>)
    reads link, link.waiters, link.waiters.queue, link.waiters.pool, link.waiters.nodes, buffer, buffer.data
  {
    && buffer.Valid() && consumed <= buffer.filled && rest == buffer.data[consumed..buffer.filled]
    && link.Fits(rest, its) && ptr == consumed + IndexOf(rest, LF)
  }

  /** One turn of the loop: the newline ends the entry, and the first query gets it. The test for an empty
      list is there, but somebody always waits. */
  method PassEntry(link: Link, buffer: Buffer, entry: nat, eol: nat, ghost mine: seq<byte>, ghost rest: seq<byte>,
                   ghost its: seq<byte>) returns (ghost callback: Callback)
    requires At(link, buffer, entry, eol, mine, its) && eol < buffer.filled
    requires rest == mine[eol - entry + 1..]
    modifies link, link.waiters, link.waiters.queue, link.waiters.pool, link.waiters.nodes, buffer.data
    ensures fresh(link.waiters.nodes - old(link.waiters.nodes)) && link.Fits(rest, its)
    ensures buffer.data[eol + 1..buffer.filled] == rest
    ensures link.history.calls == old(link.history.calls) + [Call(callback, mine[..eol - entry])]
  {
    AnswerCut(link.history, mine, link.toClient, link.waiters.queue.waiting);
    SliceOf(buffer.data[..], entry, eol, buffer.filled);
    var answer := CutEntry(buffer, entry, eol);
    if link.waiters.queue.head != null {
      callback := link.Tell(answer, mine, rest, its);
    }
  }

  /** The loop goes on with the next newline. */
  method PassNext(link: Link, buffer: Buffer, entry: nat, eol: nat, ghost mine: seq<byte>, ghost its: seq<byte>)
      returns (consumed: nat, ptr: int, ghost rest: seq<byte>, ghost callback: Callback)
    requires At(link, buffer, entry, eol, mine, its) && eol < buffer.filled
    modifies link, link.waiters, link.waiters.queue, link.waiters.pool, link.waiters.nodes, buffer.data
    ensures fresh(link.waiters.nodes - old(link.waiters.nodes))
    ensures At(link, buffer, consumed, ptr, rest, its) && consumed == eol + 1
    ensures link.history.calls == old(link.history.calls) + [Call(callback, mine[..eol - entry])]
  {
    hide Link.Fits;
    rest := mine[eol - entry + 1..];
    callback := PassEntry(link, buffer, entry, eol, mine, rest, its);
    consumed := eol + 1;
    ptr := Memchr(buffer.data, LF, consumed, buffer.filled);
  }

  lemma NoneLeft(link: Link, buffer: Buffer, consumed: nat, ptr: int, rest: seq<byte>, its: seq<byte>)
    requires At(link, buffer, consumed, ptr, rest, its) && ptr >= buffer.filled
    ensures LF !in rest && link.Fits(rest, its) && consumed <= buffer.filled
            && rest == buffer.data[consumed..buffer.filled]
  {
  }

  lemma Begins(link: Link, buffer: Buffer, ptr: nat, rest: seq<byte>, its: seq<byte>)
    requires buffer.Valid() && rest == buffer.Contents() && link.Fits(rest, its)
    requires ptr == IndexOf(buffer.data[0..buffer.filled], LF)
    ensures At(link, buffer, 0, ptr, rest, its)
  {
    assert buffer.data[0..buffer.filled] == rest;
  }

  /** The loop, from the first newline on. */
  method PassLines(link: Link, buffer: Buffer, first: nat, ghost mine: seq<byte>, ghost its: seq<byte>)
      returns (consumed: nat, ptr: int, ghost rest: seq<byte>)
    requires At(link, buffer, 0, first, mine, its)
    modifies link, link.waiters, link.waiters.queue, link.waiters.pool, link.waiters.nodes, buffer.data
    ensures fresh(link.waiters.nodes - old(link.waiters.nodes)) && At(link, buffer, consumed, ptr, rest, its)
    ensures ptr >= buffer.filled && old(link.history.calls) <= link.history.calls
  {
    hide Link.Fits;
    consumed, ptr, rest := 0, first, mine;
    ghost var told: Callback := 0;
    while ptr < buffer.filled
      invariant fresh(link.waiters.nodes - old(link.waiters.nodes)) && At(link, buffer, consumed, ptr, rest, its)
      invariant old(link.history.calls) <= link.history.calls
      decreases buffer.filled - consumed
    {
      consumed, ptr, rest, told := PassNext(link, buffer, consumed, ptr, rest, its);
    }
  }

  /** The loop: all full lines are passed on, up to `consumed`. */
  method PassOn(link: Link, buffer: Buffer, ghost its: seq<byte>)
      returns (consumed: nat, ghost rest: seq<byte>)
    requires buffer.Valid() && link.Fits(buffer.Contents(), its)
    modifies link, link.waiters, link.waiters.queue, link.waiters.pool, link.waiters.nodes, buffer.data
    ensures fresh(link.waiters.nodes - old(link.waiters.nodes)) && link.Fits(rest, its) && LF !in rest
    ensures consumed <= buffer.filled && rest == buffer.data[consumed..buffer.filled]
    ensures old(link.history.calls) <= link.history.calls
  {
    hide At, Link.Fits;
    var ptr := Memchr(buffer.data, LF, 0, buffer.filled);
    Begins(link, buffer, ptr, buffer.Contents(), its);
    consumed, ptr, rest := PassLines(link, buffer, ptr, buffer.Contents(), its);
    NoneLeft(link, buffer, consumed, ptr, rest, its);
  }

  method ReadAnswers(link: Link, buffer: Buffer, n: nat, ghost its: seq<byte>)
    requires buffer.Valid() && n <= |link.toClient| && link.Fits(buffer.Contents(), its)
    modifies link`toClient, buffer, buffer.data
    ensures buffer.Valid() && link.Fits(buffer.Contents(), its)
    ensures buffer.Contents() + link.toClient == old(buffer.Contents() + link.toClient)
    ensures n > 0 && old(buffer.Room()) > 0 ==> buffer.filled > old(buffer.filled)
  {
    var k := if n <= buffer.Room() then n else buffer.Room();
    ghost var had, pipe := buffer.Contents(), link.toClient;
    buffer.Append(link.toClient[..k]);
    link.toClient := link.toClient[k..];
    Moved(had, pipe, k);
  }

  method Keep(buffer: Buffer, consumed: nat)
    requires buffer.Valid() && consumed <= buffer.filled
    modifies buffer, buffer.data
    ensures buffer.Valid() && buffer.Contents() == old(buffer.data[consumed..buffer.filled])
  {
    if consumed > 0 {
      buffer.Drop(consumed);
    }
  }

  /** When an answer is on its way, there is room for it, and the input is watched. */
  lemma RoomAndWatched(link: Link, mine: seq<byte>, its: seq<byte>)
    requires link.Fits(mine, its) && LF !in mine && link.toClient != []
    ensures link.registered && |mine| < BUFFER_SIZE
  {
    AlwaysRoom(link.history, its, link.toService, mine, link.toClient, link.waiters.queue.waiting);
    NeverUnwatched(link.history, mine, link.toClient, link.waiters.queue.waiting);
  }

  /** fdu_dns_service_got_answer: what has come is read, and every full line is passed on, while the
      callbacks ask for more. The rest of a line stays. The input is watched, since somebody waits. */
  method GotAnswer(link: Link, buffer: Buffer, n: nat, ghost its: seq<byte>)
    requires Resting(buffer) && link.Fits(buffer.Contents(), its) && 0 < n <= |link.toClient|
    modifies link, link.waiters, link.waiters.queue, link.waiters.pool, link.waiters.nodes, buffer, buffer.data
    ensures Resting(buffer) && link.Fits(buffer.Contents(), its) && fresh(link.waiters.nodes - old(link.waiters.nodes))
    ensures old(link.registered) && old(buffer.filled) < BUFFER_SIZE
    ensures old(link.history.calls) <= link.history.calls
  {
    hide Link.Fits;
    RoomAndWatched(link, buffer.Contents(), its);
    ReadAnswers(link, buffer, n, its);
    var consumed, _ := PassOn(link, buffer, its);
    Keep(buffer, consumed);
  }

  // ----- the whole

  ghost predicate Valid(link: Link, client: Buffer, service: Buffer)
    reads link, link.waiters, link.waiters.queue, link.waiters.pool, link.waiters.nodes, client, client.data, service,
          service.data
  {
    && client != service && client.data != service.data
    && Resting(client) && service.Valid() && service.data.Length == BUFFER_SIZE
    && link.Fits(client.Contents(), service.Contents())
  }

  /** What it means: the callback of the k-th lookup got what was found for the k-th name, and the input
      is watched exactly as long as an answer is to come. */
  lemma EachItsAnswer(link: Link, client: Buffer, service: Buffer, k: nat)
    requires Valid(link, client, service)
    ensures var h := link.history;
            && (k < |h.calls| ==> h.calls[k] == Call(h.asked[k], link.resolve(k, h.names[k])))
            && link.registered == (|h.calls| < |h.asked|)
            && link.waiters.queue.waiting == h.asked[|h.calls|..]
  {
  }

  /** The service reads when it has no full line, and answers the first one else. */
  method ServiceStep(link: Link, client: Buffer, service: Buffer, n: nat)
    requires Valid(link, client, service) && (LF in service.Contents() || 0 < n <= |link.toService|)
    modifies link`toService, link`toClient, link`history, link`lookups, service, service.data
    ensures Valid(link, client, service) && link.history.calls == old(link.history.calls)
  {
    if LF in service.Contents() {
      ServiceAnswer(link, service, client.Contents());
    } else {
      ServiceRead(link, service, n, client.Contents());
    }
  }

  method ClientStep(link: Link, client: Buffer, service: Buffer, n: nat)
    requires Valid(link, client, service) && 0 < n <= |link.toClient|
    modifies link, link.waiters, link.waiters.queue, link.waiters.pool, link.waiters.nodes, client, client.data
    ensures Valid(link, client, service) && fresh(link.waiters.nodes - old(link.waiters.nodes))
    ensures old(link.history.calls) <= link.history.calls
  {
    GotAnswer(link, client, n, service.Contents());
  }

  method UserStep(link: Link, client: Buffer, service: Buffer)
    requires Valid(link, client, service)
    modifies link, link.waiters, link.waiters.queue, link.waiters.pool, link.waiters.nodes
    ensures Valid(link, client, service) && fresh(link.waiters.nodes - old(link.waiters.nodes))
    ensures link.history.calls == old(link.history.calls)
  {
    link.Callback(client.Contents(), service.Contents());
  }

  /** Any of them. */
  method Step(link: Link, client: Buffer, service: Buffer)
    requires Valid(link, client, service)
    modifies link, link.waiters, link.waiters.queue, link.waiters.pool, link.waiters.nodes
    modifies client, client.data, service, service.data
    ensures Valid(link, client, service) && fresh(link.waiters.nodes - old(link.waiters.nodes))
    ensures old(link.history.calls) <= link.history.calls
  {
    var n: nat := *;
    if
    case true => UserStep(link, client, service);
    case LF in service.Contents() || 0 < n <= |link.toService| => ServiceStep(link, client, service, n);
    case 0 < n <= |link.toClient| => ClientStep(link, client, service, n);
  }

  method Start(resolve: Resolver) returns (link: Link, client: Buffer, service: Buffer)
    ensures Valid(link, client, service) && New(link, client, service) && link.resolve == resolve
    ensures link.history == History([], [], [], [], [])
  {
    link := new Link(resolve);
    client := new Buffer(BUFFER_SIZE);
    service := new Buffer(BUFFER_SIZE);
  }

  twostate predicate New(new link: Link, new client: Buffer, new service: Buffer)
    reads link, link.waiters
  {
    && fresh(link) && fresh(link.waiters) && fresh(link.waiters.queue) && fresh(link.waiters.pool)
    && fresh(link.waiters.nodes) && fresh({client, service, client.data, service.data})
  }

  /** Any number of steps. */
  method Steps(link: Link, client: Buffer, service: Buffer, n: nat)
    requires Valid(link, client, service)
    modifies link, link.waiters, link.waiters.queue, link.waiters.pool, link.waiters.nodes
    modifies client, client.data, service, service.data
    ensures Valid(link, client, service) && old(link.history.calls) <= link.history.calls
    decreases n
  {
    if n > 0 {
      Step(link, client, service);
      Steps(link, client, service, n - 1);
    }
  }

  /** Any run, from the start of the service on. */
  method Run(resolve: Resolver, steps: nat) returns (link: Link, client: Buffer, service: Buffer)
    ensures Valid(link, client, service) && link.resolve == resolve
  {
    link, client, service := Start(resolve);
    Steps(link, client, service, steps);
  }
}
