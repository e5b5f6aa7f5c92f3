# Femc driver: a model of the event runtime

Femc driver is an event-driven runtime in C. A dispatcher polls descriptors and fires timers; on top of it
stand buffered services, an HTTP request parser, a task queue, DNS lookups through a helper process, an error
stack, and a codec for CAN frames. What is hard about it is that user callbacks run in the middle of its
functions and may call it again, that buffers are edited in place while they are read, and that lists are
linked through their own nodes.

This project models those parts as Dafny classes and arrays that change as the C structures do. What a user
callback does is not known, so it is any finite sequence of the calls it may make. What `read`, `write`, `select`,
the zmq poller, `malloc`, `gethostbyname` and the clock answer, and what callbacks return, are inputs: the contracts
say what is done for each answer. The clock never goes back; how far it goes on from where it starts, and how far
ahead timers are set, is bounded only together, by what a narrowing comparison can tell apart.

## The parts

- **Timers and main loop** (`Timespec`, `TimerList`, `TimerQueue`, `Timers`, `MonotonicClock`, `MainLoop`).
  The time arithmetic has exact bounds. The linked list refines a sequence that is always sorted and stable;
  cancelling takes out exactly one handle; every node is in exactly one place. `MainLoop` keeps a log of
  firings, merges and polls, and every entry of it is good in real time (`LogInRealTime`); `MainLoop.Run` says round
  by round what the loop does, and why it ends.
- **Poll back-ends** (`Directions`; `SelectPoll`; `EntryList` and `ZmqPoll`). Callbacks add and remove
  descriptors while a poll goes through what was reported, and a log keeps what they did. With select, everything
  reported is dispatched once, or the log has a change of it first. With zmq, three linked lists hold all entries;
  the log says exactly which service each waiting event calls, and a stale one calls nobody, even if its number is
  in use again (`ZmqPoll.StaleEvent`).
- **Buffered services** (`Bufio`, `BufioService`, `BufioClients`) under any clients, who also make services in
  the middle of callbacks, with their deferred close and free; and **echo2** (`Echo2`), the pipeline of two of
  them: no byte is lost, and data never stalls.
- **HTTP requests**. `HttpSpec` says what a call does to a sequence of bytes, and `HttpUnfold` which lines are
  unfolded to what. `HttpParser`, with `HttpBuffer`, `HttpHeader`, `HttpLoop` and `HttpState`, does it in place and
  refines it. `HttpChunks` proves that it does not matter how the bytes are cut, up to runs of blanks; `HttpFolds`
  says for which cuts a header line differs by them, `HttpExact` that all else is then exactly the same,
  `HttpRequests` that requests on one connection do not influence each other but for the content type,
  `HttpContent` what becomes of content, and `HttpFeed` is the buffer that chunks are read into. `HttpPrint` and
  `HttpReadBack` write requests from names that the parser does not use, and prove that it reads them back.
- **Task queue** (`TaskPool`, `TaskQueue`), **error stack** (`ErrorStack`), **DNS** (`DnsLines`, `DnsQueue`,
  `DnsWaiters`, `DnsHistory`, `Dns`: client, pipes and service together), **serialisation and CAN frames**
  (`S11nSpec`, `S11n`, `CanSpec`, `Can`, `CanText`).

Each operation that changes state is a method whose contract gives the new state in terms of a specification
function or an invariant; what is promised is then proved of these, and of whole runs.

## Where the code does something else than it is meant to

- http.c:156 looks at the byte behind the value of Content-length, which is a NUL by then, and so refuses every
  such header. `HttpSpec.DigitTest` has both forms: the one as written, for which `HttpContent.NoContentAsWritten`
  shows that no content is ever handed over, and the one that looks at each byte.
- http.c:362-374: the call that reaches the end of a request without content reports that bytes are missing;
  the next call succeeds (`HttpChunks.EndIsLate`, `HttpChunks.EndIsSaidNext`), and so chunks make a difference to the
  status exactly then (`HttpChunks.ChunksDoNotMatter`).
- http.c:183-191 puts no NUL behind a content type, and http.c:40 clears only the first byte of the one before. A
  content type that is shorter than the one of the request before ends like that one (`HttpRequests.TypeLeaks`);
  `HttpRequests.TypeSeen` says exactly when what is seen is what was sent.
- http.c:337-349: a header that is cut between two blanks of a fold keeps one blank more. Chunks therefore make
  no difference up to runs of blanks, which mean the same by section 2.2 of RFC 2616. A header line differs if and only
  if it is cut like that (`HttpFolds.ExactUnlessFoldCut`); chunks that are cut nowhere like that come to exactly the
  same outcome, whatever the callbacks are (`HttpExact.CleanChunksAreExact`).
- dispatcher.c:174 carries with `>`, so a timer may hold 10^9 nanoseconds. `Timespec.CompareFollowsRealTime`
  says what that does to the order.
- dispatcher.c:128-130 narrows to `int`. `Timespec.CompareNarrows` says exactly for which times the sign is right
  nevertheless.
- dispatcher.c:417-454: a recurring timer that cancels its own handle is queued again, as it is on no list then
  (`MainLoop.MainLoop.Finish`).
- dispatcher_zmq.c:447-498: when a service of a descriptor is replaced, an event that waits goes to the new service if
  and only if the descriptor had one for the other direction all the while; else it goes to nobody
  (`ZmqPoll.Registry.Replace`).
- demo/echo2.c:78-82 closes the output as soon as it has taken bytes from an input that has ended, so what was in the
  input buffer then is not all written. `Echo2.Echo.Delivered` gives the exact condition, `Echo2.Echo.EndTooEarly`
  shows how it comes about.
- task_queue.c:228-229 takes a second completion of the same id. `TaskQueue.Queue.CompleteTask` says exactly
  when the queue stays sound, `TaskQueue.Queue.CompleteTwice` shows that a task is lost otherwise.
- can.c:15-96 looks for the mark of an extended id where a standard id may have its 16th bit. Exactly the frames without
  it are read back (`CanSpec.ReadBackExactly`).
- can.c:212-233 reckons two bytes less than can.c:235-303 writes, for every frame (`CanText.TwoShort`).
- utils.c:967-1042 takes names with a newline, which the service answers more than once; and when there is no
  memory for a query (utils.c:1020-1025), the name has been sent already, which README.md of the repository has
  among its things to do. `Dns.Link.Lookup` says that answers and callbacks stay in step if and only if neither happens,
  `DnsLines.AnswersShift` whose answers later callbacks are told after a newline.
- error_stack.c:224 shifts by the type of a node, which C leaves open for types above 31. A node of such a type may be
  taken for a context, and then no context below it can be popped (`ErrorStack.MatchingPop`); the known types are not
  (`ErrorStack.KnownAbove`).
- error_stack.c:137 counts errors in 32 bits, and so goes around
  (`ErrorStack.ErrorsStay`, `ErrorStack.CountedTogether`).

## Model

| member | source | states |
|---|---|---|
| Timespec.ExpirationTime | dispatcher.c:97-124 | the expiry is the clock plus the milliseconds, exact in nanoseconds, with nsec below one second |
| Timespec.AddMsecExact | dispatcher.c:161-184 | adding milliseconds is exact; nsec stays at most 10^9, and a whole second is not carried |
| Timespec.CompareFollowsRealTime | dispatcher.c:126-131 | comparing times less than 2^31 seconds apart orders them as real time does; only a tie between (s, 10^9) and (s + 1, 0) is broken by representation |
| Timespec.CompareTransitive | dispatcher.c:126-131 | the comparison is transitive, with strictness carried along, as a sorted list needs it |
| Timespec.CompareNarrows | dispatcher.c:128-130 | for any times: the comparison has the right sign if and only if the difference in seconds, cut to 32 bits, keeps its sign; so it is right from -2^31 to 2^31 - 1 seconds, and wrong just beyond |
| Timespec.MsecLeftAccurate | dispatcher.c:133-159 | the milliseconds left are not negative and strictly within one millisecond of the true difference |
| Timespec.MsecLeftRounds | dispatcher.c:155-156 | which way the milliseconds left are rounded: down, or up if nanoseconds are borrowed from a second |
| Timespec.DueExactly | dispatcher.c:133-159 | when exactly a timer counts as due, and what that says in real time |
| Timespec.DueMonotone | dispatcher.c:133-159 | when a timer is due, all that expire before it are due |
| Timespec.OccurrenceExact | dispatcher.c:435-453 | the k-th occurrence of a recurring timer is k periods after the first, exact in nanoseconds |
| TimerList.InsertOrdered | dispatcher.c:254-286 | inserting keeps the list sorted, and equal expiries in the order of insertion |
| TimerList.InsertMembers | dispatcher.c:254-286 | inserting adds exactly the new entry |
| TimerList.WithoutMembers | dispatcher.c:331-363 | cancelling takes out all entries of the handle, and no others |
| TimerList.WithoutOrdered | dispatcher.c:331-363 | cancelling keeps the order |
| TimerList.OrderedUnique | dispatcher.c:254-286 | there is only one sorted stable arrangement of the same entries |
| TimerList.RunOrdered | dispatcher.c:254-456 | after any sequence of additions, cancellations and firings the list is sorted and stable |
| TimerQueue.NodePool.FreeNode | dispatcher.c:194-198 | a freed node is the top of the pool |
| TimerQueue.NodePool.Refill | dispatcher.c:208-226 | a block of 32 nodes is made, or one, or none, by what memory there is |
| TimerQueue.NodePool.AllocNode | dispatcher.c:200-248 | a node comes off the pool, filled in; fails if and only if the pool is empty and there is memory for neither a block nor a node |
| TimerQueue.TimerQueue.PlaceFor | dispatcher.c:254-286 | the search ends in front of the first timer that expires strictly later |
| TimerQueue.TimerQueue.LinkBehind | dispatcher.c:254-286 | the list with the node linked in at its place |
| TimerQueue.TimerQueue.AddNode | dispatcher.c:254-286 | the linked list is then what inserting into the sequence gives |
| TimerQueue.TimerQueue.Unlink | dispatcher.c:331-363 | the list without its k-th node, all other links well |
| Timers.Timers.AddTimer | dispatcher.c:302-329 | adding inserts stably, or changes nothing, exactly when there is neither an unused node nor memory; every node stays in one place |
| Timers.Timers.CancelTimer | dispatcher.c:331-363 | cancelling a handle other than 0 filters exactly that handle out, and its nodes go to the pool |
| Timers.Timers.TakeFirst | dispatcher.c:417-418 | the head leaves the list and is held by the loop |
| Timers.Timers.Requeue | dispatcher.c:451-452 | a held timer is inserted again as a new one |
| Timers.Timers.Release | dispatcher.c:456 | a held node goes back to the pool |
| MonotonicClock.Clock.Read | dispatcher.c:97-124 | whatever readings come, the clock does not go back |
| MainLoop.MergeOccurrences | dispatcher.c:435-449 | the merge ends, at the k-th occurrence with k at least 1; the following one was not due, and if k is above 1 the chosen one was |
| MainLoop.MergedCount | dispatcher.c:435-449 | k in closed form, by division |
| MainLoop.LogInRealTime | dispatcher.c:404-498 | a timer fires later than its expiry minus 1 ms and is the first; no poll while the head is due, nor 1 ms past its expiry, nor, if it waits at all, 1 ms past the deadline as last reckoned; a recurring timer keeps its rhythm |
| MainLoop.MainLoop.constructor | dispatcher.c:192-252 | no timers, an empty log |
| MainLoop.MainLoop.AddTimer | dispatcher.c:302-329 | the timer is inserted with an expiry that is exactly the clock plus the offset, unless there is no node for it |
| MainLoop.MainLoop.CancelTimer | dispatcher.c:331-363 | exactly the handle is filtered out, at any time, also from callbacks |
| MainLoop.MainLoop.TakeDue | dispatcher.c:415-418 | what is fired is the head, and due at the last reading |
| MainLoop.MainLoop.Finish | dispatcher.c:422-456 | a recurring timer is queued again at the merged time unless the callback asked to kill it; any other is freed |
| MainLoop.MainLoop.FireFirst | dispatcher.c:415-463 | firing with any user code in it keeps list, pool and log; no node stays held; exactly what is logged, what comes of a shutdown, and whether the loop goes on |
| MainLoop.MainLoop.FirstLeft | dispatcher.c:408-413 | the time left, and that any timeout no longer than that, nor past the deadline, makes a good poll |
| MainLoop.MainLoop.Poll | dispatcher.c:479-480 | the poll is logged with its timeout and deadline, then any user code runs; the result is that of the back-end |
| MainLoop.MainLoop.Timeout | dispatcher.c:466-477 | the poll takes exactly the time to the next expiry, or to the deadline if that is less, reckoned anew if timers have fired |
| MainLoop.MainLoop.CountDown | dispatcher.c:482-485 | what is left of the time to wait, as the clock has it after the poll |
| MainLoop.MainLoop.PollRound | dispatcher.c:466-488 | with no timer due: exactly how long is polled, whether timers have fired before or not; that the loop fails just if the poll does, and stops for the deadline just if that is due |
| MainLoop.MainLoop.Round | dispatcher.c:404-498 | each round reads the clock and fires the head if and only if it is due, and else polls once for exactly the right time, with the deadline it is cut to; what is logged, what time is left, and whether the loop goes on, stops or fails |
| MainLoop.MainLoop.Run | dispatcher.c:369-501 | for any answers of back-end, callbacks, users and clock: what each round does; that it ends only with nothing left to do, after a shutdown, with less than a millisecond left of the limit, or by a failure, each exactly in the round where that happens, and else does all rounds |
| SelectPoll.Select.constructor | dispatcher_select.c:64-67 | nothing is registered |
| SelectPoll.Select.Resize | dispatcher_select.c:29-62 | the block has room for the descriptor, the handlers are kept, the new ones null |
| SelectPoll.Select.Add | dispatcher_select.c:132-200 | a descriptor without handler gets one, all others keep theirs; the cached set stays the set of handlers, nfds stays one above the largest, and during a poll it is not dispatched |
| SelectPoll.Select.Remove | dispatcher_select.c:202-260 | the handler is gone, all others stay, and nfds comes down to the last one left |
| SelectPoll.LastUsed | dispatcher_select.c:221-227 | where the loop that lowers nfds ends |
| SelectPoll.Select.Empty | dispatcher_select.c:126-130 | nfds are zero if and only if nothing is registered |
| SelectPoll.Select.Callback | dispatcher_select.c:69-124 | whatever is added and removed in a callback: nothing becomes ready or counts as dispatched, and what counts as changed is what the log says was |
| SelectPoll.Select.DispatchOne | dispatcher_select.c:99-105 | the handler called is not null and is the one of when the poll began; the descriptor is not called again; the poll goes on just if the callback says so |
| SelectPoll.Select.DispatchSide | dispatcher_select.c:97-121 | the loop ends with none left in its direction, with the count at zero, or with the callback that aborts it |
| SelectPoll.AllOfThem | dispatcher_select.c:97-121 | a count of zero means that all that was ready has been dispatched, so leaving early misses none |
| SelectPoll.Select.Poll | dispatcher_select.c:69-124 | for any answer of select: what it reports is what is dispatched, each descriptor and direction exactly once unless it was removed or added again first, up to the first callback that aborts; an interruption is no failure, and any other error is |
| SelectPoll.PlayedMeans | dispatcher_select.c:132-260 | a descriptor counts as changed if and only if the log has an add or remove of it before any dispatch of it |
| EntryList.List.Push | dispatcher_zmq.c:47-59 | the entry is the new head; all links are well |
| EntryList.List.Remove | dispatcher_zmq.c:61-76 | the list without the entry; all links are well |
| EntryList.List.Pop | dispatcher_zmq.c:78-87 | the head comes off |
| EntryList.Lowest | dispatcher_zmq.c:182-186 | the loop finds the last entry |
| EntryList.Splice | dispatcher_zmq.c:172-194 | all of one list comes on top of another, and both are well linked |
| ZmqPoll.Registry.constructor | dispatcher_zmq.c:198-218 | three empty lists |
| ZmqPoll.Registry.Find | dispatcher_zmq.c:128-139 | the entry of a descriptor is found if and only if it is watched |
| ZmqPoll.Registry.Allocate | dispatcher_zmq.c:91-126 | 16 new entries are unused ones, if there is memory |
| ZmqPoll.Registry.Add | dispatcher_zmq.c:307-445 | the service is registered and watched, exactly unless there is one already or no memory for a new entry; no other descriptor changes, lists and counts stay right; the entry given to a new descriptor is none that a waiting event has |
| ZmqPoll.Registry.Remove | dispatcher_zmq.c:447-551 | succeeds just for a registered service; the entry stays while the other direction needs it, else it is removed with both services null; no other descriptor changes |
| ZmqPoll.Registry.RemoveEntry | dispatcher_zmq.c:158-170 | the entry goes from the used list to the removed one, and the count with it |
| ZmqPoll.Registry.Reuse | dispatcher_zmq.c:172-194 | removed entries become unused, when no events wait |
| ZmqPoll.Registry.Empty | dispatcher_zmq.c:302-305 | the count is zero if and only if nothing is watched |
| ZmqPoll.Registry.Callback | dispatcher_zmq.c:228-297 | whatever callbacks do, an entry removed in a poll stays removed until the poll is over, and what each waiting event can reach is what the log of adds and removes says |
| ZmqPoll.Registry.Replace | dispatcher_zmq.c:307-551 | a service removed and added again gets the waiting event if and only if the other direction was registered; else the event reaches nobody |
| ZmqPoll.Registry.TakeTurn | dispatcher_zmq.c:272-290 | one direction of an event calls the service that its entry has, if there is one, and that is the one the log says; the poll goes on just if the callback says so |
| ZmqPoll.Registry.PollEvents | dispatcher_zmq.c:258-291 | every event gets its two turns, output before input, up to the first callback that aborts; each calls exactly the service that the log up to then leaves it |
| ZmqPoll.Registry.Poll | dispatcher_zmq.c:220-300 | for any events that the poller reports: each calls exactly the service of its own descriptor that is left by what users have done since, and nobody if none is left, up to the first callback that aborts; afterwards no event waits; an interruption or a timeout is no failure, and any other error is |
| ZmqPoll.StaleEvent | dispatcher_zmq.c:158-194 | once a descriptor has lost both services, a waiting event for it reaches nobody, whoever registers the same number again |
| ZmqPoll.FreshEvent | dispatcher_zmq.c:272-290 | while nobody touches a descriptor, its event calls the service of when the poll began |
| ZmqPoll.NobodyLeft | dispatcher_zmq.c:158-194 | what a waiting event can reach does not come back, whatever is done |
| Bufio.Buffer.Append | utils.c:122-134 | the new bytes stand behind the others |
| Bufio.Buffer.Drop | utils.c:205-208 | the first bytes go, the others move to the front |
| Bufio.Transfer | utils.c:367-394 | the bytes of both buffers, one behind the other, stay the same, and either the source is empty or the target full |
| BufioService.OrderMeans | utils.c:138-160 | at most one close callback, no notify after it, at most one release, and that last |
| BufioService.Service.constructor | utils.c:398-600 | a new service is open, registered, without an error, and has an empty buffer |
| BufioService.Service.DoExchange | utils.c:115-233 | for any answer of read or write: when it is not called; bytes move by exactly that many; the end and failures are told from EINTR and EAGAIN, with the error kept just of a failure; registered just while it may not transfer on touch |
| BufioService.Service.EnterNotify | utils.c:138-141 | the notify callback is made while open, and marked active |
| BufioService.Service.LeaveNotify | utils.c:141-160 | a close or free asked for meanwhile, or by what the callback returns, is carried out now, and nothing else closes |
| BufioService.Service.EnterClose | utils.c:285-322 | an active service is only marked, any other closes, once |
| BufioService.Service.LeaveClose | utils.c:324-331 | memory is given back if and only if the user asked for it |
| BufioService.Service.EnterFree | utils.c:339-363 | free is deferred while active, immediate when closed, and closes first when open |
| BufioService.Service.EnterTouch | utils.c:244-283 | touch re-enters just an open unregistered service that can do something, never an active one |
| BufioClients.World.GotEvent | utils.c:96-233 | for any answer of read or write and any reply of the callback: bytes that moved are notified, exactly once; the end or a failure closes, and so does the reply; EINTR, EAGAIN and a full or empty buffer change nothing and tell nobody; the log and the error are exactly those; under any callbacks all services keep their invariant, active ones stay open and unreleased; the recursion ends, as each is entered once, also those made meanwhile |
| BufioClients.World.Notify | utils.c:138-145 | the notify callback is made exactly once, and not to a closed service, whatever it does |
| BufioClients.World.Close | utils.c:285-337 | a service that is not active is closed then, and told so once, whatever the close callback does |
| BufioClients.World.Free | utils.c:339-363 | a service that is not active is released then; an active one later, and never while a frame still uses it |
| BufioClients.World.Touch | utils.c:244-283 | touch says whether the service was open, under any callbacks; it reads or writes just if the service waits for it and can |
| BufioClients.World.Make | utils.c:398-600 | a service made at any time, also within callbacks, takes its place among the others |
| BufioClients.Run | utils.c:96-363 | in every run, with services made at any time, each service has had notifies, then at most one close callback, if and only if there was a reason for it, then its release if and only if it was asked for |
| Echo2.Echo.constructor | demo/echo2.c:175-212 | a new pipeline runs, with both services on the descriptor it was given |
| Echo2.Echo.InputDataMoved | demo/echo2.c:34-59 | with nested calls in it: bytes are conserved, and waiting input means a full output buffer that is being written |
| Echo2.Echo.OutputDataMoved | demo/echo2.c:63-92 | with nested calls in it: bytes are conserved; stays open just while there is something to write or the input lives |
| Echo2.Echo.InputClosed | demo/echo2.c:105-139 | what the end of input does: closes the output on an error or when nothing waits, else leaves it to drain |
| Echo2.Echo.OutputClosed | demo/echo2.c:143-171 | the socket is closed once; the input is closed with it, or all is freed |
| Echo2.Echo.FreeService | demo/echo2.c:96-101 | both services and the pipeline are given back |
| Echo2.Echo.GotInput | utils.c:96-163 | an event of the input, with any answer of read, leaves the pipeline running or ended: exactly the bytes that came are read; EINTR and EAGAIN change nothing; the end and failures close the input |
| Echo2.Echo.GotOutput | utils.c:165-233 | an event of the output, with any answer of write, leaves the pipeline running or ended: exactly the bytes that went are written; EINTR and EAGAIN change nothing; failures close the output |
| Echo2.Echo.TouchInput | utils.c:244-283 | touching the input from the output callback keeps what that callback relies on |
| Echo2.Echo.TouchOutput | utils.c:244-283 | and the other way round |
| Echo2.Echo.NeverStalls | demo/echo2.c:34-92 | while bytes wait the output is watched; while there is room the input is; something always is |
| Echo2.Echo.Delivered | demo/echo2.c:78-82 | what is written is a beginning of what is read; without failures all of it in the end if and only if the input buffer was empty when the input ended |
| Echo2.Echo.EndTooEarly | demo/echo2.c:105-139 | an input that ends while bytes wait in its buffer leaves them there: whatever comes after, less is written than was read |
| Echo2.Echo.Serve | demo/echo2.c:34-171 | both of these after any number of events, until the pipeline has ended |
| HttpUnfold.UnfoldsExactly | http.c:318-356 | the header lines that are unfolded are exactly those written as texts with an end of line and blanks between them, and are read as these texts with single spaces between them |
| HttpSpec.ThreeWords | http.c:234-244 | exactly the lines of three words with single spaces are taken as request lines |
| HttpPrint.MethodTold | http.c:234-271 | the first callback is told a method and a url if and only if the line is the name of that method, a space, the url, a space and a third word, for any url and any callbacks |
| HttpPrint.VersionTold | http.c:273-306 | the second is told a version if and only if its name is the third word, and the first was accepted |
| HttpPrint.LineDone | http.c:221-312 | what a request line leaves: its method and version, and a connection to be closed just for version 1.0 |
| HttpPrint.LineRefused | http.c:221-306 | which request lines are refused, with which error, and what callbacks have been made by then |
| HttpReadBack.StripMeans | http.c:69-93 | stripping takes all of the white space at both ends, and nothing else |
| HttpPrint.Characters | http.c:69-356 | which characters these are, and which are white space |
| HttpBuffer.Fold | http.c:337-349 | a fold is one space in place of the line end and all blanks, what follows moves down, and nothing outside the buffer changes |
| HttpBuffer.CutWords | http.c:235-244 | the three searches for spaces cut the request line as the specification does |
| HttpBuffer.StripBoth | http.c:69-93 | white space at both ends is left out |
| HttpBuffer.ConvertToLowercase | http.c:45-67 | letters of ISO 8859-1 in lower case, and nothing outside is touched |
| HttpText.LettersLowered | http.c:45-67 | which bytes these letters are, and what they become |
| HttpBuffer.IsString | http.c:122-181 | a name is recognised if and only if it is that string up to its NUL |
| HttpBuffer.CheckLength | http.c:143-160 | which values of Content-length pass, with either form of the digit check |
| HttpBuffer.ToNumber | http.c:162-179 | the decimal value, cut to 32 bits |
| HttpRequests.ClearedIsNew | http.c:21-41 | whatever came before and comes after, in whatever chunks, a cleared parser makes the calls, has the results and leaves the bytes that a new one would for the same client; only the memory of the content type may differ |
| HttpRequests.NextRequest | http.c:21-433 | a request that follows others on its connection, in whatever chunks and perhaps partly read with the one before, has the outcome that one call of a new parser has on all its bytes, up to runs of blanks in headers and the memory of the content type |
| HttpRequests.NextRequestExactly | http.c:21-433 | the same exactly, for any callbacks and with the content type, if no cut is between blanks of a fold and the new parser's memory held the same |
| HttpRequests.TypeSeen | http.c:183-191 | what is seen of a content type is what was sent, up to 63 bytes, if and only if a NUL is in it or happens to be behind it |
| HttpRequests.TypeLeaks | http.c:183-191 | a shorter content type shows the end of the longer one of the request before |
| HttpHeader.ParseHeader | http.c:97-203 | a header line, taken apart in place, has the effect, callback and result of the specification |
| HttpHeader.CutHeader | http.c:109-120 | name and value stand alone with a NUL behind each |
| HttpReadBack.FieldsRead | http.c:315-356 | header lines written from any names and values are read back: each callback has its name in lower case and its value, in order, and then comes the content |
| HttpReadBack.FieldRefused | http.c:97-203 | a header is refused, before its callback, just for a wrong length of content; else just by its callback |
| HttpReadBack.NoHeader | http.c:104-120 | a line is no header if and only if it has no colon with more than white space in front of it |
| HttpReadBack.ClosingMeans | http.c:122-141 | the connection is kept with version 1.0 if and only if a header says keep-alive, with version 1.1 if and only if none says close |
| HttpReadBack.LengthMeans | http.c:143-179 | the length of the content is what the last header with that name says in decimal |
| HttpLoop.Step | http.c:321-356 | a round of the loop keeps start, sol and end in order, writes only between them, and comes closer to the end though the end moves |
| HttpLoop.ParseHeaders | http.c:315-356 | the loop refines unfolding and splitting into lines |
| HttpParser.ParseRequestLine | http.c:221-312 | the request line has the effects, callbacks and first error of the specification |
| HttpParser.ParseContentStart | http.c:362-375 | what is done when the headers have ended |
| HttpParser.ParseContent | http.c:377-424 | what is done with content |
| HttpParser.ParseRequest | http.c:207-433 | the resumable parser on its buffer refines the specification in every state, on any bytes |
| HttpChunks.ParseMore | http.c:207-433 | one call on two pieces together does what two calls do, with the rest carried over |
| HttpChunks.ParseAlike | http.c:207-433 | bytes that differ only in runs of blanks have the same outcome |
| HttpChunks.ChunksDoNotMatter | http.c:207-433 | for every cut into chunks: same callbacks, progress, message, bytes left and first error as one call, up to runs of blanks in headers; the same status if and only if it is not so that a request without content ended before the last chunk |
| HttpChunks.EndIsLate | http.c:362-374 | the call that reaches the end says so if and only if there was content |
| HttpChunks.EndIsSaidNext | http.c:427-428 | the next call succeeds and takes no byte |
| HttpFolds.ExactUnlessFoldCut | http.c:337-349 | a line read on from where a chunk ended is exactly the line of all bytes, if and only if the cut was not between blanks of a fold |
| HttpExact.ParseMoreExactly | http.c:207-433 | for any callbacks, one call on two pieces has exactly the state, content type included, the calls, errors and bytes left that two calls have, unless the first stops within the blanks of a fold that the second goes on with |
| HttpExact.CleanChunksAreExact | http.c:207-433 | and so for any chunks of which none is cut like that |
| HttpContent.NoContentAsWritten | http.c:152-160 | with the digit check as written no content callback is made in any run of calls, with clearing anywhere in between |
| HttpContent.ContentInOnePiece | http.c:362-424 | with each byte checked, content is handed over in one piece and what follows is left alone |
| HttpReadBack.RequestReadBack | http.c:207-433 | a whole request, written from its method, url, version, headers and content, is read back by one call, with what follows it left |
| HttpReadBack.TooMuch | http.c:362-375 | content is too long if and only if it has more than 65536 bytes |
| HttpFeed.ParseBuffer | app/site/parser.c:83-98 | what a call leaves is at the front of the buffer |
| HttpFeed.ParseNext | app/site/parser.c:83-105 | cleared and run on what is left, the parser does what a new one would |
| HttpFeed.OneChunk | app/site/parser.c:83-98 | a chunk behind the rest goes on from one outcome to the next |
| HttpFeed.Feed | app/site/parser.c:51-149 | any chunks, read one after the other into the buffer, come to the outcome that HttpChunks speaks of |
| TaskPool.Pool.Misplace | task_queue.c:52-58 | a task is the top of the pool |
| TaskPool.Pool.Obtain | task_queue.c:60-87 | a task comes off the pool, which is filled if it is empty; fails if and only if there is no memory for that; none is lost |
| TaskQueue.Queue.constructor | task_queue.c:89-112 | an empty queue, which may start at once |
| TaskQueue.Queue.LaunchNext | task_queue.c:129-147 | the first task is started with the next id |
| TaskQueue.Queue.SetupNextLaunch | task_queue.c:149-173 | the first task is started now, or one timer is armed for what is left of the pause, to less than 1 ms either way |
| TaskQueue.Queue.AddTask | task_queue.c:175-219 | the task is the last one, the queue stays sound, no node is lost; fails just without a handler or a node |
| TaskQueue.Queue.CompleteTask | task_queue.c:221-259 | which ids are taken; the first task goes back to the pool; the queue stays sound if and only if that task was in flight |
| TaskQueue.Queue.CompleteTwice | task_queue.c:228-229 | with two tasks and the clock standing still, completing the same id twice always loses the second task, and leaves a timer on an empty queue |
| TaskQueue.Queue.TimerFires | task_queue.c:129-147 | a launch timer never finds an empty queue |
| TaskQueue.Step | task_queue.c:129-259 | any step of a client that completes each id once, or of the dispatcher, keeps all of it |
| TaskQueue.Run | task_queue.c:129-259 | in every run the n-th task added is launched n-th with id n, at most one is in flight or one timer armed, and pauses are kept to 2 ms |
| ErrorStack.Stack.Push | error_stack.c:28-67 | what is on the stack after a push, for known and unknown types, full or not, with its 64 places; what does not fit is counted |
| ErrorStack.TallyIs | error_stack.c:41-61 | what is counted is how many nodes have the types of errors, which are 1 to 4 and 7, or of errors in the reporting, which is 6 |
| ErrorStack.Stack.PushContext | error_stack.c:75-86 | the pointer is where the context is, or null if rejected |
| ErrorStack.Stack.Pop | error_stack.c:142-193 | everything from the topmost matching context on goes, with its counts; else the complaint that fits is pushed |
| ErrorStack.Stack.Reset | error_stack.c:195-207 | everything above the context goes |
| ErrorStack.Stack.NextError | error_stack.c:214-227 | the next node of one of the types downwards, none between |
| ErrorStack.Stack.SafePop | error_stack.h:76-80 | pops if and only if no error is counted and the context is there |
| ErrorStack.MatchingPop | error_stack.c:142-193 | a pop with the pointer of its push restores stack and counts, whatever stands above, if and only if no node above is of a type that is taken for a context; else it is misled |
| ErrorStack.MisledBy | error_stack.c:155-161 | a search is misled by the topmost node that is taken for a context and is none, if the context has not come before |
| ErrorStack.KnownAbove | error_stack.c:142-193 | with nodes of known types above it a context is always found by its pointer |
| ErrorStack.Bracket | error_stack.c:75-207 | over any run of pushes, and of pops and resets that leave the context, popping it by its pointer succeeds if and only if nothing above is taken for a context, and then brings back stack and counts, but for what was rejected |
| ErrorStack.ErrorsStay | error_stack.c:28-67 | once a push has been rejected, the count of errors is not zero any more, short of 2^32 rejections |
| ErrorStack.CountedTogether | error_stack.c:137-138 | the count of errors is errors, complaints and rejections together, modulo 2^32 |
| ErrorStack.Run | error_stack.c:28-227 | over every run the counters go along with the stack, and after a rejected push no safe pop succeeds |
| S11nSpec.RoundTrip | s11n.c:72-501 | what is written in either order is read back, but for bits that do not fit |
| S11nSpec.RoundTripBytes | s11n.c:72-501 | bytes that are read and written again stay the same |
| S11nSpec.Mirror | s11n.c:72-501 | the two byte orders mirror each other |
| S11nSpec.ByteAt | s11n.c:72-501 | the i-th byte from the lower end is the i-th digit of the number to the base 256 |
| S11n.Serializer.ReadUint16 | s11n.c:72-109 | two bytes in the current order, or failure without moving |
| S11n.Serializer.ReadUint24 | s11n.c:111-150 | three bytes likewise |
| S11n.Serializer.ReadUint32 | s11n.c:152-193 | four bytes likewise |
| S11n.Serializer.ReadUint64 | s11n.c:195-244 | eight bytes likewise |
| S11n.Serializer.WriteUint16 | s11n.c:329-366 | two bytes in the current order, nothing else touched, or failure without writing |
| S11n.Serializer.WriteUint24 | s11n.c:368-407 | three bytes likewise |
| S11n.Serializer.WriteUint32 | s11n.c:409-450 | four bytes likewise |
| S11n.Serializer.WriteUint64 | s11n.c:452-501 | eight bytes likewise |
| S11n.Serializer.ReadBytes | s11n.c:257-295 | as many bytes as asked for, with a NUL on request, or failure without moving |
| S11n.Serializer.WriteBytes | s11n.c:514-549 | the bytes copied, nothing else touched, or failure |
| CanSpec.DecodeProper | can.c:15-149 | a written frame is read back with its id masked, and exactly its bytes are used |
| CanSpec.ReadBackExactly | can.c:15-149 | and that holds if and only if it is extended or has bit 15 of its id clear |
| CanSpec.IdsThatStay | can.c:15-149 | the ids that come back as they were are those below 0x800, and extended ones with less than 0x2000_0000 beside the mark |
| CanSpec.FrameBytes | can.c:98-149 | what the bytes of a frame are: two or four of the id, the highest first, one of the size, and the data |
| CanSpec.Truncated | can.c:15-96 | part of a frame is never taken for a frame |
| CanSpec.ListReadBack | can.c:15-149 | any list of frames is read back from the bytes of all of them |
| Can.ReadBin | can.c:151-169 | reading decodes, restores the byte order whatever it was, and does not move on failure |
| Can.WriteBin | can.c:171-189 | writing encodes, restores the byte order, fails just for want of room or a bad size, and touches nothing else |
| CanText.TwoShort | can.c:212-233 | the size that is checked is two short for every frame, so the text fits if and only if there are two bytes more |
| CanText.TextBack | can.c:235-303 | the text says all of the frame but for the bits that are masked |
| CanText.HexDigits | can.c:199-210 | the digits are those of the number to the base 16 |
| CanText.Spaces | can.c:235-303 | where the spaces are |
| CanText.WriteTxt | can.c:235-303 | which frames are taken, the text that is written then, and that at most two bytes come behind the end |
| DnsLines.OneLine | utils.c:1001-1007 | a name makes one line if and only if it has no newline |
| DnsLines.FirstLine | dns-service.c:83-103 | the first newline at hand ends the next text, whatever else has come |
| DnsLines.PartOfLine | dns-service.c:70-71 | without a newline it is part of one text, and so never fills the buffer |
| DnsLines.AnswersShift | utils.c:1001-1007 | after a name with newlines each later callback is told the answer to a name asked for as many earlier as there are newlines, the first ones parts of that name |
| DnsQueue.Pool.NewNode | utils.c:713-732 | a node off the pool, or a new one, filled in |
| DnsQueue.Pool.FreeNode | utils.c:736-740 | the node is the top of the pool |
| DnsQueue.Queue.Append | utils.c:1027-1039 | the node is the last one; says whether the list was empty |
| DnsQueue.Queue.TakeFirst | utils.c:834-842 | the first node goes; says whether the list is empty |
| DnsWaiters.Waiters.Join | utils.c:1018-1039 | the callback is the last one waiting, and every node is in the list or in the pool |
| DnsWaiters.Waiters.Leave | utils.c:834-846 | the first callback leaves and its node is pooled |
| DnsHistory.Asked | utils.c:998-1007 | a lookup adds one line behind all bytes on their way |
| DnsHistory.OneLineEach | utils.c:783-1042 | as many lines are on their way, either way, as callbacks wait |
| DnsHistory.OneLineMore | utils.c:1001-1008 | a further name keeps that if and only if it has no newline; else there are too many answers |
| DnsHistory.Answered | dns-service.c:83-103 | the name cut off is the next that was asked for, and what is found for it is one line behind all answers |
| DnsHistory.Told | utils.c:818-850 | the entry cut off is the answer to the first callback that waits |
| DnsHistory.AlwaysRoom | dns-service.c:70-73 | without a newline both buffers have room, so nothing is thrown away and no read is of zero bytes |
| DnsHistory.NeverUnwatched | utils.c:839-844 | as long as an answer is on its way, somebody waits |
| DnsHistory.AllTold | utils.c:783-864 | when pipes and buffers are empty, every callback has had what was found for its own name |
| Dns.Link.constructor | utils.c:868-965 | empty pipes, nobody waits, the input is not watched |
| Dns.Link.Lookup | utils.c:967-1042 | which names are taken; one lookup keeps history, pipes and list in step, also from callbacks, if and only if there is no newline in the name and there is a node or memory for the query |
| Dns.Link.Tell | utils.c:834-850 | the first one waiting is called with what came, the input is not watched when it was the last, and new lookups in the callback fit in |
| Dns.ReadMore | dns-service.c:70-79 | reading as the loop does it, with the branch that throws a full buffer away |
| Dns.ServiceRead | dns-service.c:70-79 | that branch loses nothing, since it is never taken |
| Dns.ServiceAnswer | dns-service.c:83-103 | the first name is looked up, and what is found for it is written as one line |
| Dns.PassOn | utils.c:812-851 | all full lines are passed on, in order, while callbacks make lookups |
| Dns.GotAnswer | utils.c:783-864 | whatever piece has come, full lines are passed on and the rest stays; the input was watched, and there was room |
| Dns.EachItsAnswer | utils.c:783-1042 | the k-th callback is told what was found for the k-th name; the input is watched if and only if somebody waits |
| Dns.Step | utils.c:783-1042 | any step of user, client or service keeps this |
| Dns.Steps | utils.c:783-1042 | any number of steps keeps it, and callbacks once made stay as they are |
| Dns.Run | utils.c:783-1042 | and so does any run from the start, for any cut of the bytes |

## Left out

- Sockets, pipes, fork, signals, pid files and log files: calls into the system, without logic of their own.
- The error stack inside other functions: contexts are taken to be pushed and popped well, so a call fails only for the reasons modelled; `fde_safe_pop_context` at the end of a handler is taken to succeed.
- Running out of memory, other than in the pools of timers, of tasks, of zmq entries and of DNS queries.
- HTTP error responses, dates and message tables, error printing and names: formatting.
- HttpChunks.ChunksDoNotMatter: demands callbacks that take runs of blanks for one, and does not compare the content type, whose copy is cut off at 63 bytes, blanks included; nor are header bytes the same but for runs of blanks. That is because of cuts within folds; without such cuts HttpExact.CleanChunksAreExact has neither restriction.
- HttpRequests.NextRequest: the same; without such cuts there is HttpRequests.NextRequestExactly.
- What is left in the buffer of an HTTP request after an error, and the parser in the middle of reading content: content is only read when all of it is there.
- HttpFeed.Feed: stops at a chunk that does not fit, where the dispatcher would stop reading.
- MainLoop.MainLoop.AddTimer: offsets, recurrences and limits are at most `reach` milliseconds, and the clock goes on for less than `limit` seconds from wherever it starts, where limit and twice reach come to at most 2^31 seconds; beyond that comparisons may narrow (Timespec.CompareNarrows).
- TaskQueue.Run: the clock stays below 2^31 seconds less twice the interval, because a new queue compares its first time to run, which is 0, with the clock.
- MainLoop.MainLoop.Run: how a callback ends, what error_resolver says of it, and whether errors are counted at the start are inputs, because the error stack is not part of the loop; reopening the log file is left out.
- BufioClients.Run: between two events only finitely many services are made; a client that makes and closes one in every close callback would never return.
- BufioService.Service.constructor: a new output starts with its flags and its close error at zero, which utils.c:575-586 leaves to chance.
- Echo2.Echo.Delivered: full delivery only if the input buffer was empty when the input ended, because of demo/echo2.c:78-82; until the pipeline ends no byte is lost.
- SelectPoll.Select.Add: does not model the limit on descriptors of select, because that is a constant of the system.
- ZmqPoll.Registry.Poll: descriptors only; zmq sockets (dispatcher_zmq.c:568-812) drop their entry with the first direction and are inconsistent with descriptors.
- SelectPoll.Select.Poll: an interrupted select leaves nothing reported, where the system leaves the sets unspecified.
- TaskQueue.Step: a handler is started last thing in its call, and completions come as steps of their own; ids do not go around.
- TaskQueue.Queue.SetupNextLaunch: arming the timer succeeds.
- ErrorStack.Stack.Push: contents of messages are not copied.
- Dns.Link.Lookup: the notify function is not null, and writing to the pipe succeeds.
- Dns.Link.Callback: looks up names without newlines only, and with memory for the query, since a run goes wrong with the first that is otherwise (Dns.Link.Lookup).
- Dns.Run: the service process does not end, so shutting down and calling everybody with a null address is left out.
- Can.WriteBin: the eight data bytes are a sequence in the frame, so their place in memory is not modelled.
- CanText.WriteTxt: demands memory for what it writes, which is up to two bytes more than can.c:212-233 asks for; the text reader of can.c:193-196 does nothing.
- Readers and writers of single bytes and of floats in s11n.c: too simple, and reinterpreted memory.
- app/babysitter.c, the rest of app/site and the other demos.
