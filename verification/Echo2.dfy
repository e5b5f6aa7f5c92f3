/** The echo service of demo/echo2.c: what is read from a socket is written back to it, through two
    buffered services that touch and close each other from within their callbacks. */
module Echo2 {
  import opened Bytes
  import opened Bufio
  import opened BufioService
  import opened Directions

  const BUFFER_SIZE: nat := 4000

  class Echo {
    const input: Service
    const output: Service
    var socketsClosed: nat           // how often the socket has been closed
    var gone: bool                   // whether this object has been freed
    ghost var failed: bool           // whether reading or writing has failed
    ghost var leftAtEnd: seq<byte>   // what was in the input buffer when the input was closed

    ghost predicate Shape() {
      && input != output && input.buffer != output.buffer && input.buffer.data != output.buffer.data
      && input.direction == Input && output.direction == Output && input.notifies && output.notifies
      && input.buffer.data.Length == BUFFER_SIZE && output.buffer.data.Length == BUFFER_SIZE
    }

    /** No byte is lost, doubled or out of order: what was read is what was written, and what waits. */
    ghost predicate Flows()
      requires input.buffer.Valid() && output.buffer.Valid()
      reads input, output, input.buffer, output.buffer, input.buffer.data, output.buffer.data
    {
      input.stream == output.stream + output.buffer.Contents() + input.buffer.Contents()
    }

    ghost predicate NothingWaits()
      reads input.buffer, output.buffer
    {
      input.buffer.filled == 0 && output.buffer.filled == 0
    }

    /** Bytes wait in the input buffer only if the output buffer is full. */
    ghost predicate Pressed()
      reads input.buffer, output.buffer
    {
      input.buffer.filled > 0 ==> output.buffer.Room() == 0
    }

    /** While bytes wait for the output, the dispatcher has it. */
    ghost predicate Draining()
      reads output, output.buffer
    {
      output.buffer.filled > 0 ==> !output.canXfer
    }

    /** While there is room in its buffer, the dispatcher has the input. */
    ghost predicate Filling()
      reads input, input.buffer
    {
      !input.IsClosed() && input.canXfer ==> input.buffer.Room() == 0
    }

    /** The end of the output, if nothing fails: the input has ended, and all bytes have been written if
        and only if the input buffer was empty when it ended. */
    ghost predicate Fair()
      requires input.buffer.Valid() && output.buffer.Valid()
      reads this, input, output, input.buffer, output.buffer, input.buffer.data, output.buffer.data
    {
      failed || (input.IsClosed() && (NothingWaits() <==> leftAtEnd == []))
    }

    /** When the input has ended, what it left stays. */
    twostate predicate EndStays()
      reads this, input
    {
      old(input.IsClosed()) ==> input.IsClosed() && leftAtEnd == old(leftAtEnd)
    }

    ghost predicate Basic()
      reads this, input, output, input.buffer, output.buffer, input.buffer.data, output.buffer.data
    {
      Shape() && input.Inv() && output.Inv() && Flows()
    }

    /** The service between events, while its output is open. */
    ghost predicate Running()
      reads this, input, output, input.buffer, output.buffer, input.buffer.data, output.buffer.data
    {
      && Basic() && Alive() && !input.active && !output.active && !output.IsClosed()
      && Pressed() && Draining() && Filling() && !failed
      && (input.IsClosed() ==> input.buffer.Contents() == leftAtEnd && !NothingWaits())
    }

    /** The service when it has come to its end: the socket has been closed once, all memory given back. */
    ghost predicate Ended()
      reads this, input, output, input.buffer, output.buffer, input.buffer.data, output.buffer.data
    {
      && Basic() && !input.active && !output.active && input.IsClosed() && output.IsClosed()
      && input.released && output.released && gone && socketsClosed == 1 && Fair()
    }

    /** new_service. */
    constructor (fd: nat)
      ensures Running() && input.fd == output.fd == fd && input.stream == []
      ensures fresh({input, output, input.buffer, output.buffer, input.buffer.data, output.buffer.data})
    {
      input := new Service(Input, fd, BUFFER_SIZE, true);
      output := new Service(Output, fd, BUFFER_SIZE, true);
      socketsClosed, gone, failed, leftAtEnd := 0, false, false, [];
    }

    /** How many of the two services are not in the middle of a callback. */
    ghost function Idle(): nat
      reads input, output
    {
      (if input.active then 0 else 1) + (if output.active then 0 else 1)
    }

    // ----- closing

    /** What closing leaves alone. */
    twostate predicate Same()
      reads input, output
    {
      && input.stream == old(input.stream) && output.stream == old(output.stream)
      && input.canXfer == old(input.canXfer) && output.canXfer == old(output.canXfer)
      && input.closeErrno == old(input.closeErrno) && output.closeErrno == old(output.closeErrno)
      && input.active == old(input.active) && output.active == old(output.active)
    }

    /** Nothing is read, or written, while a callback of the service is running. */
    twostate predicate NotBetween()
      reads input, output
    {
      && (old(input.active) ==> input.stream == old(input.stream))
      && (old(output.active) ==> output.stream == old(output.stream))
    }

    /** Whether nothing has been freed, and the socket is closed if the output is. */
    ghost predicate Alive()
      reads this, input, output
    {
      !gone && !input.asked && !output.asked && socketsClosed == if output.IsClosed() then 1 else 0
    }

    /** Of two closed services everything has been given back, but for what waits until a callback
        returns. */
    ghost predicate Freed()
      reads this, input, output
    {
      input.IsClosed() && output.IsClosed() && input.asked && output.asked && gone && socketsClosed == 1
    }

    /** free_service. */
    method FreeService()
      requires input.Inv() && output.Inv() && input != output && input.IsClosed() && output.IsClosed()
      requires Alive()
      modifies this`gone, input`freed, input`asked, input`released, input`ending, input`log, output`freed,
               output`asked, output`released, output`ending, output`log
      ensures input.Inv() && output.Inv() && Freed()
    {
      var now := output.EnterFree();
      now := input.EnterFree();
      gone := true;
    }

    /** fdu_bufio_close of the output. */
    method CloseOutput()
      requires Shape() && output.MayClose() && output.ending && input.Inv() && Alive() && !output.IsClosed()
      modifies this, input, output
      ensures output.Inv() && input.Inv() && Same()
      ensures old(output.active) ==> output.closed && !output.IsClosed() && unchanged(input) && unchanged(this)
                                     && output.asked == old(output.asked)
      ensures !old(output.active) ==> output.IsClosed()
      ensures !old(output.active) && old(input.active && !input.IsClosed()) ==>
                Alive() && input.closed && !input.IsClosed() && failed == old(failed)
      ensures !old(output.active) && old(!input.active || input.IsClosed()) ==> Freed()
      ensures old(failed) ==> failed
      ensures old(input.IsClosed()) ==> failed == old(failed) && leftAtEnd == old(leftAtEnd)
      decreases Idle(), 1
    {
      var now, fd := output.EnterClose();
      if now {
        OutputClosed();
        output.LeaveClose();
      }
    }

    /** output_closed. */
    method OutputClosed()
      requires Shape() && output.Inv() && output.active && output.IsClosed() && input.Inv()
      requires !gone && !input.asked && !output.asked && socketsClosed == 0
      modifies this, input, output
      ensures output.Inv() && input.Inv() && Same() && output.IsClosed()
      ensures if old(input.active && !input.IsClosed()) then
                Alive() && input.closed && !input.IsClosed() && failed == old(failed)
              else Freed()
      ensures old(failed) ==> failed
      ensures old(input.IsClosed()) ==> failed == old(failed) && leftAtEnd == old(leftAtEnd)
      decreases Idle(), 2
    {
      socketsClosed := socketsClosed + 1;
      if input.IsClosed() {
        FreeService();
      } else {
        input.ending := true;
        CloseInput();
      }
    }

    /** fdu_bufio_close of the input. */
    method CloseInput()
      requires Shape() && input.MayClose() && input.ending && output.Inv() && Alive() && !input.IsClosed()
      modifies this, input, output
      ensures output.Inv() && input.Inv() && Same()
      ensures old(input.active) ==> input.closed && !input.IsClosed() && unchanged(output) && unchanged(this)
                                    && input.asked == old(input.asked)
      ensures !old(input.active) ==> input.IsClosed() && AfterEnd()
      decreases Idle(), 1
    {
      var now, fd := input.EnterClose();
      if now {
        InputClosed();
        input.LeaveClose();
      }
    }

    /** How it stands after the input has come to its end. */
    twostate predicate AfterEnd()
      requires input.buffer.Valid()
      reads this, input, output, input.buffer, output.buffer, input.buffer.data, output.buffer.data
    {
      && leftAtEnd == input.buffer.Contents() && failed == (old(failed) || input.closeErrno != 0)
      && if old(output.IsClosed()) then Freed()
         else if input.closeErrno != 0 || NothingWaits() then
           if old(output.active) then Alive() && output.closed && !output.IsClosed() else Freed()
         else Alive() && !output.IsClosed() && output.closed == old(output.closed)
    }

    /** input_closed. */
    method InputClosed()
      requires Shape() && input.Inv() && input.active && input.IsClosed() && output.Inv() && Alive()
      modifies this, input, output
      ensures output.Inv() && input.Inv() && Same() && input.IsClosed() && AfterEnd()
      decreases Idle(), 2
    {
      leftAtEnd := input.buffer.Contents();
      failed := failed || input.closeErrno != 0;
      if output.IsClosed() {
        FreeService();
      } else if input.closeErrno != 0 || (input.buffer.filled == 0 && output.buffer.filled == 0) {
        output.ending := true;
        CloseOutput();
      }
    }

    // ----- input

    /** What holds within input_data_moved, but for what a transfer repairs. */
    ghost predicate WithinInput()
      reads this, input, output, input.buffer, output.buffer, input.buffer.data, output.buffer.data
    {
      && Basic() && Alive() && input.active && !input.IsClosed()
      && (output.IsClosed() ==> failed && !output.active)
      && (!output.IsClosed() ==> !input.closed && !failed && !(output.active && output.closed))
    }

    /** input_data_moved. */
    method InputDataMoved() returns (stayOpen: bool)
      requires WithinInput() && Draining()
      modifies this, input, output, input.buffer, output.buffer, input.buffer.data, output.buffer.data
      ensures WithinInput() && input.active == old(input.active) && output.active == old(output.active)
      ensures if output.IsClosed() then input.closed else stayOpen && Pressed() && Draining()
      ensures NotBetween()
      decreases Idle(), 4
    {
      if output.IsClosed() {
        input.ending := true;
        CloseInput();
        return true;
      }
      var bytes := MoveBytes();
      stayOpen := true;
      if bytes > 0 {
        stayOpen := TouchOutput();
      }
    }

    /** fdu_bufio_transfer from the input to the output. */
    method MoveBytes() returns (bytes: nat)
      requires Basic()
      modifies input.buffer, output.buffer, input.buffer.data, output.buffer.data
      ensures Basic() && Pressed()
      ensures bytes == 0 ==> input.buffer.Contents() == old(input.buffer.Contents())
      ensures bytes > 0 ==> old(input.buffer.filled) > 0 && output.buffer.filled > 0
      ensures bytes == 0 ==> output.buffer.filled == old(output.buffer.filled)
    {
      ghost var w, o, i := output.stream, output.buffer.Contents(), input.buffer.Contents();
      bytes := Transfer(output.buffer, input.buffer);
      Regroup(w, o, i, output.buffer.Contents(), input.buffer.Contents());
    }

    lemma Regroup(w: seq<byte>, o: seq<byte>, i: seq<byte>, o': seq<byte>, i': seq<byte>)
      requires o + i == o' + i'
      ensures w + o + i == w + o' + i' && (|o| == |o'| ==> i == i')
    {
      assert w + o + i == w + (o + i) && w + o' + i' == w + (o' + i');
      assert |o| == |o'| ==> i == (o + i)[|o|..] && i' == (o' + i')[|o'|..];
    }

    /** fdu_bufio_touch of the output. */
    method TouchOutput() returns (ok: bool)
      requires WithinInput() && !output.IsClosed() && Pressed()
      modifies this, input, output, input.buffer, output.buffer, input.buffer.data, output.buffer.data
      ensures WithinInput() && input.active == old(input.active) && output.active == old(output.active)
      ensures ok && if output.IsClosed() then input.closed else Pressed() && Draining()
      ensures NotBetween()
      decreases Idle(), 3
    {
      var go;
      ok, go := output.EnterTouch();
      if go {
        var answer := SystemAnswer(output);
        GotOutput(answer);
      }
    }

    // ----- output

    /** What holds when fdu_bufio_got_output may be called. */
    ghost predicate BeforeOutput()
      reads this, input, output, input.buffer, output.buffer, input.buffer.data, output.buffer.data
    {
      && Basic() && Alive() && !output.active && !output.IsClosed() && Pressed() && !failed
      && (input.active ==> WithinInput())
      && (!input.active ==> Filling() && (input.IsClosed() ==> input.buffer.Contents() == leftAtEnd && !NothingWaits()))
    }

    /** What the system answers if it is asked. */
    method SystemAnswer(s: Service) returns (answer: Answer)
      requires s.buffer.Valid()
      ensures s.Keeps(answer)
    {
      answer := *;
      if !s.Keeps(answer) {
        answer := answer.(bytes := []);
      }
    }

    /** fdu_bufio_got_output, given what write answers if it is called. */
    method GotOutput(answer: Answer)
      requires BeforeOutput() && output.Keeps(answer)
      modifies this, input, output, input.buffer, output.buffer, input.buffer.data, output.buffer.data
      ensures !output.active && input.active == old(input.active)
      ensures if input.active then
                WithinInput() && (if output.IsClosed() then input.closed else Pressed() && Draining())
              else Running() || Ended()
      ensures EndStays()
      ensures old(output.buffer.filled) > 0 ==>
                output.stream == old(output.stream) + if answer.failed then []
                                                      else old(output.buffer.Contents())[..|answer.bytes|]
      ensures old(output.buffer.filled) > 0 && (answer.failed || answer.bytes == [])
              && (answer.errno == EINTR || answer.errno == EAGAIN) ==>
                && input.fd == old(input.fd) && output.fd == old(output.fd) && input.stream == old(input.stream)
                && input.buffer.Contents() == old(input.buffer.Contents())
                && output.buffer.Contents() == old(output.buffer.Contents())
      ensures old(output.buffer.filled) > 0 && (answer.failed || answer.bytes == [])
              && answer.errno != EINTR && answer.errno != EAGAIN ==>
                output.IsClosed()
      ensures NotBetween()
      decreases Idle(), 2
    {
      var r := WriteSome(answer);
      var lazyClose := r == Over;
      if r == Moved {
        lazyClose := NotifyOutput();
      }
      if lazyClose {
        CloseOutput();
      }
    }

    method NotifyOutput() returns (lazyClose: bool)
      requires Basic() && Alive() && !output.active && !output.IsClosed() && !output.canXfer && !failed
      requires input.active ==> WithinInput()
      requires !input.active ==> Filling() && (input.IsClosed() ==> input.buffer.Contents() == leftAtEnd)
      modifies this, input, output, input.buffer, output.buffer, input.buffer.data, output.buffer.data
      ensures Shape() && input.Inv() && output.MayClose() && output.ending == lazyClose && Flows() && Alive()
      ensures !output.active && !output.IsClosed()
      ensures input.active == old(input.active) && !output.canXfer
      ensures input.active ==> !lazyClose && Pressed() && WithinInput()
      ensures if lazyClose then Fair()
              else output.Inv() && Pressed() && Filling() && !failed
                   && (input.IsClosed() ==> input.buffer.Contents() == leftAtEnd && !NothingWaits())
      ensures EndStays()
      ensures output.stream == old(output.stream)
      ensures NotBetween()
      decreases Idle(), 1
    {
      output.EnterNotify();
      var stayOpen := OutputDataMoved();
      lazyClose := output.LeaveNotify(stayOpen);
    }

    method WriteSome(answer: Answer) returns (r: Exchange)
      requires BeforeOutput() && output.Keeps(answer)
      modifies `failed, output`canXfer, output`registered, output`closeErrno, output`stream, output`ending,
               output.buffer, output.buffer.data
      ensures Shape() && input.Inv() && output.MayClose() && output.ending == (r == Over)
      ensures Flows() && failed == (r == Over) && (r != Over ==> output.Inv())
      ensures r == Parked <==> old(output.buffer.filled) == 0
      ensures r == Moved <==> r != Parked && !answer.failed && answer.bytes != []
      ensures r == Retry <==> r != Parked && (answer.failed || answer.bytes == [])
                              && (answer.errno == EINTR || answer.errno == EAGAIN)
      ensures output.stream == old(output.stream) + if r == Moved then old(output.buffer.Contents())[..|answer.bytes|]
                                                    else []
      ensures r != Moved ==> output.buffer.Contents() == old(output.buffer.Contents())
      ensures r == Moved ==> !output.canXfer
      ensures r == Parked || r == Retry ==> Pressed() && Draining() && output.buffer.filled == old(output.buffer.filled)
    {
      Written(output.stream, output.buffer.Contents(), input.buffer.Contents(), |answer.bytes|);
      r := output.DoExchange(answer);
      failed := r == Over;
    }

    lemma Written(w: seq<byte>, o: seq<byte>, i: seq<byte>, n: nat)
      requires n <= |o|
      ensures w + o + i == w + o[..n] + o[n..] + i
    {
      assert w + o[..n] + o[n..] == w + o;
    }

    /** What holds within output_data_moved, but for what a transfer repairs. */
    ghost predicate WithinOutput()
      reads this, input, output, input.buffer, output.buffer, input.buffer.data, output.buffer.data
    {
      && Basic() && Alive() && output.active && !output.IsClosed()
      && (input.active ==> WithinInput())
    }

    /** What holds when a callback has been made meanwhile: if the input has ended, then the output is to
        be closed if and only if that was an error, or nothing is left to write. */
    ghost predicate EndSeen()
      reads this, input, output, input.buffer, output.buffer, input.buffer.data, output.buffer.data
    {
      && input.buffer.Valid() && (!input.IsClosed() ==> !output.closed && !failed)
      && (input.IsClosed() ==> input.buffer.Contents() == leftAtEnd && output.closed == (failed || NothingWaits()))
    }

    /** output_data_moved. */
    method OutputDataMoved() returns (stayOpen: bool)
      requires WithinOutput() && Filling() && !failed && !output.closed
      requires input.IsClosed() ==> input.buffer.Contents() == leftAtEnd
      modifies this, input, output, input.buffer, output.buffer, input.buffer.data, output.buffer.data
      ensures WithinOutput() && input.active == old(input.active) && output.active == old(output.active)
      ensures input.active ==> stayOpen && !output.closed && Pressed()
      ensures if stayOpen && !output.closed then
                Pressed() && Filling() && !failed
                && (input.IsClosed() ==> input.buffer.Contents() == leftAtEnd && !NothingWaits())
              else Fair()
      ensures EndStays()
      ensures NotBetween()
      decreases Idle(), 4
    {
      var bytes := MoveBytes();
      if bytes > 0 {
        var ok := TouchInput();
        if !ok {
          return false;
        }
      }
      if input.IsClosed() && input.buffer.filled == 0 {
        return output.buffer.filled != 0;
      }
      stayOpen := true;
    }

    /** fdu_bufio_touch of the input. */
    method TouchInput() returns (ok: bool)
      requires WithinOutput() && Pressed() && !failed && !output.closed
      modifies this, input, output, input.buffer, output.buffer, input.buffer.data, output.buffer.data
      ensures WithinOutput() && input.active == old(input.active) && output.active == old(output.active)
      ensures ok == old(!input.IsClosed()) && Pressed()
      ensures ok ==> Filling() && EndSeen()
      ensures !ok ==> unchanged(this) && unchanged(input) && unchanged(output) && unchanged(input.buffer, output.buffer)
                      && unchanged(input.buffer.data) && unchanged(output.buffer.data)
      ensures NotBetween()
      decreases Idle(), 3
    {
      var go;
      ok, go := input.EnterTouch();
      if go {
        var answer := SystemAnswer(input);
        GotInput(answer);
      }
    }

    /** What holds when fdu_bufio_got_input may be called. */
    ghost predicate BeforeInput()
      reads this, input, output, input.buffer, output.buffer, input.buffer.data, output.buffer.data
    {
      && Basic() && Alive() && !input.active && !input.IsClosed() && !output.IsClosed()
      && Pressed() && Draining() && !failed && !output.closed
    }

    /** fdu_bufio_got_input, given what read answers if it is called. */
    method GotInput(answer: Answer)
      requires BeforeInput() && input.Keeps(answer)
      modifies this, input, output, input.buffer, output.buffer, input.buffer.data, output.buffer.data
      ensures !input.active && output.active == old(output.active)
      ensures if output.active then WithinOutput() && Pressed() && Filling() && EndSeen() else Running() || Ended()
      ensures input.stream == old(input.stream) + if !answer.failed && old(input.buffer.Room()) > 0 then answer.bytes
              else []
      ensures old(input.buffer.Room()) > 0 && answer.failed && (answer.errno == EINTR || answer.errno == EAGAIN) ==>
                && input.fd == old(input.fd) && output.fd == old(output.fd) && output.stream == old(output.stream)
                && input.buffer.Contents() == old(input.buffer.Contents())
                && output.buffer.Contents() == old(output.buffer.Contents())
      ensures old(input.buffer.Room()) > 0 && (if answer.failed then answer.errno != EINTR && answer.errno != EAGAIN
                                               else answer.bytes == []) ==>
                input.IsClosed()
      ensures NotBetween()
      decreases Idle(), 2
    {
      var r := ReadSome(answer);
      var lazyClose := r == Over;
      if r == Moved {
        lazyClose := NotifyInput();
      }
      if lazyClose {
        CloseInput();
      }
    }

    method NotifyInput() returns (lazyClose: bool)
      requires Basic() && Alive() && !input.active && !input.IsClosed() && !input.canXfer
      requires !output.IsClosed() && Draining() && !failed && !output.closed
      modifies this, input, output, input.buffer, output.buffer, input.buffer.data, output.buffer.data
      ensures Shape() && input.MayClose() && input.ending == lazyClose && output.Inv() && Flows() && Alive()
      ensures !input.active && !input.IsClosed()
      ensures output.active == old(output.active) && !input.canXfer && lazyClose == output.IsClosed()
      ensures if lazyClose then failed && !output.active
              else input.Inv() && Pressed() && Draining() && !failed && !(output.active && output.closed)
      ensures input.stream == old(input.stream)
      ensures NotBetween()
      decreases Idle(), 1
    {
      input.EnterNotify();
      var stayOpen := InputDataMoved();
      lazyClose := input.LeaveNotify(stayOpen);
    }

    method ReadSome(answer: Answer) returns (r: Exchange)
      requires BeforeInput() && input.Keeps(answer)
      modifies input`canXfer, input`registered, input`closeErrno, input`stream, input`ending, input.buffer,
               input.buffer.data
      ensures Shape() && output.Inv() && input.MayClose() && input.ending == (r == Over) && (r != Over ==> input.Inv())
      ensures Flows()
      ensures r == Parked <==> old(input.buffer.Room()) == 0
      ensures r == Moved <==> r != Parked && !answer.failed && answer.bytes != []
      ensures r == Retry <==> r != Parked && answer.failed && (answer.errno == EINTR || answer.errno == EAGAIN)
      ensures input.stream == old(input.stream) + if r == Moved then answer.bytes else []
      ensures r != Moved ==> input.buffer.Contents() == old(input.buffer.Contents())
      ensures r != Parked ==> !input.canXfer
      ensures r != Moved ==> Pressed() && Filling()
    {
      ghost var w, o, i, s := output.stream, output.buffer.Contents(), input.buffer.Contents(), input.stream;
      r := input.DoExchange(answer);
      assert r == Moved ==> input.stream == s + input.stream[|s|..];
      assert w + o + (i + input.stream[|s|..]) == w + o + i + input.stream[|s|..];
    }

    // ----- whole runs

    /** No data is ever stuck: while bytes wait, the dispatcher watches the output; while there is room
        for more, it watches the input; so there is always something it watches. */
    lemma NeverStalls()
      requires Running()
      ensures !NothingWaits() ==> output.registered
      ensures !input.IsClosed() && input.buffer.Room() > 0 ==> input.registered
      ensures input.registered || output.registered
    {
    }

    /** What is written is a beginning of what is read. If nothing fails, all of it is written in the end
        if and only if the input buffer was empty when the input ended. */
    lemma Delivered()
      requires Running() || Ended()
      ensures output.stream <= input.stream
      ensures Ended() && !failed ==> (output.stream == input.stream <==> leftAtEnd == [])
    {
      var w, o, i := output.stream, output.buffer.Contents(), input.buffer.Contents();
      assert w + o + i == w + (o + i);
      assert NothingWaits() <==> |o + i| == 0;
    }

    /** The input ends while bytes wait in its buffer: they are left over. So whatever events follow, not
        all that was read is written in the end. */
    method EndTooEarly()
      requires Running() && !input.IsClosed() && input.buffer.filled > 0 && input.closeErrno == 0
      modifies this, input, output, input.buffer, output.buffer, input.buffer.data, output.buffer.data
      ensures leftAtEnd != [] && (Running() || Ended())
      ensures Ended() && !failed ==> output.stream < input.stream
    {
      input.ending := true;
      CloseInput();
      Serve();
    }

    /** Any number of events from the dispatcher. */
    method Serve()
      requires Running()
      modifies this, input, output, input.buffer, output.buffer, input.buffer.data, output.buffer.data
      ensures Running() || Ended()
      ensures output.stream <= input.stream && EndStays()
      ensures Ended() && !failed ==> (output.stream == input.stream <==> leftAtEnd == [])
    {
      var left: nat := *;
      while left > 0
        invariant (Running() || Ended()) && EndStays()
      {
        var which: bool := *;
        if input.registered && which {
          var answer := SystemAnswer(input);
          GotInput(answer);
        } else if output.registered {
          var answer := SystemAnswer(output);
          GotOutput(answer);
        }
        left := left - 1;
      }
      Delivered();
    }
  }
}
