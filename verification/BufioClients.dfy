/** Buffered services among users who call anything at any time: from within notify and close
    callbacks, on any service that is not released, nested as deep as it goes. */
module BufioClients {
  import opened Bytes
  import opened Bufio
  import opened BufioService
  import opened Directions

  /** What no call changes: while a service is active it stays open, or closed, and is not released;
      what is closed or released stays so; what has happened has happened. */
  twostate predicate Kept(s: Service)
    reads s
  {
    && s.active == old(s.active)
    && (old(s.active) ==> s.fd == old(s.fd) && s.canXfer == old(s.canXfer) && s.log == old(s.log))
    && (old(s.active) ==> s.stream == old(s.stream) && s.closeErrno == old(s.closeErrno))
    && (old(s.active) ==> (old(s.closed) ==> s.closed) && (old(s.freed) ==> s.freed))
    && (old(s.IsClosed()) ==> s.IsClosed()) && (old(s.released) ==> s.released) && old(s.log) <= s.log
    && (old(s.asked) ==> s.asked)
  }

  /** What a service has seen last: the close callback, and then its release if that was asked for. */
  function Farewell(fd: nat, errno: int, asked: bool): seq<Happening> {
    [ClosedAt(fd, errno)] + if asked then [Released] else []
  }

  /** All the services there are. */
  class World {
    var services: set<Service>
    ghost var mem: set<object>      // their buffers
    var toCome: nat                 // how many more the users will make before the next event

    constructor ()
      ensures Inv() && services == {} && mem == {}
    {
      services, mem, toCome := {}, {}, 0;
    }

    /** Every service but `s` is as it should be. */
    ghost predicate OthersInv(s: Service?)
      reads this, services, mem
    {
      && this !in mem
      && forall t :: t in services ==> t.buffer in mem && t.buffer.data in mem && (t != s ==> t.Inv())
    }

    ghost predicate Inv()
      reads this, services, mem
    {
      OthersInv(null)
    }

    /** Services are made, and none goes. */
    twostate predicate Grown()
      reads this
    {
      && old(services) <= services && old(mem) <= mem && fresh(services - old(services)) && fresh(mem - old(mem))
      && toCome <= old(toCome) && (toCome == old(toCome) ==> services == old(services))
    }

    /** New services are in the middle of no callback. */
    twostate predicate OthersWent(s: Service?)
      reads this, services
    {
      Grown() && forall t :: t in services && t != s ==> if t in old(services) then Kept(t) else !t.active
    }

    twostate predicate Went()
      reads this, services
    {
      OthersWent(null)
    }

    /** The services that are not in the middle of a callback are all among `idle`. */
    ghost predicate Idle(idle: set<Service>)
      reads this, services
    {
      forall s :: s in services && !s.active ==> s in idle
    }

    /** The same, after calls that have perhaps made some more. */
    twostate function Still(idle: set<Service>): set<Service>
      reads this
    {
      if toCome == old(toCome) then idle else services
    }

    /** Whether read or write is not called for a service, for want of room or of bytes. */
    ghost predicate NothingToDo(s: Service)
      reads s, s.buffer
    {
      if s.direction == Input then s.buffer.Room() == 0 else s.buffer.filled == 0
    }

    /** Reading or writing of one service does nothing to the others, even if they had its buffer. */
    twostate lemma OthersStay(s: Service)
      requires old(Inv()) && s in services && unchanged(this) && s.Sound()
      requires forall t :: t in services && t != s ==> unchanged(t)
      requires forall t :: t in services && t.buffer != s.buffer ==> unchanged(t.buffer)
      ensures OthersInv(s) && s.MayClose()
    {
    }

    /** fdu_bufio_got_input or fdu_bufio_got_output, called by the dispatcher or from touch, given what
        read or write answers and what the notify callback returns, if they are called. Services call
        each other through the users' callbacks, but each is entered at most once: the calls are nested
        no deeper than there are idle services, made or to come. */
    method GotEvent(s: Service, answer: Answer, reply: bool, ghost idle: set<Service>) returns (r: Exchange)
      requires Inv() && Idle(idle) && s in services && !s.active && !s.IsClosed() && s.Keeps(answer)
      modifies this, services, mem
      ensures Inv() && Went()
      ensures r == Parked <==> old(NothingToDo(s))
      ensures r == Moved <==> r != Parked && !answer.failed && answer.bytes != []
      ensures r == Retry <==> r != Parked && (answer.failed || (answer.bytes == [] && s.direction == Output))
                              && (answer.errno == EINTR || answer.errno == EAGAIN)
      ensures r == Parked || r == Retry ==>
                && s.fd == old(s.fd) && s.log == old(s.log) && s.buffer.Contents() == old(s.buffer.Contents())
                && s.canXfer == (r == Parked)
      ensures s.stream == old(s.stream) + if r != Moved then [] else if s.direction == Input then answer.bytes
                                          else old(s.buffer.Contents())[..|answer.bytes|]
      ensures r == Moved && !s.notifies ==>
                && s.fd == old(s.fd) && s.log == old(s.log)
                && s.buffer.Contents() == if s.direction == Input then old(s.buffer.Contents()) + answer.bytes
                                          else old(s.buffer.Contents())[|answer.bytes|..]
      ensures r == Moved && s.notifies ==>
                && (!reply ==> s.IsClosed())
                && s.log == old(s.log) + [Notified]
                            + if s.IsClosed() then Farewell(old(s.fd), s.closeErrno, s.asked) else []
      ensures r == Over ==> s.IsClosed() && s.log == old(s.log) + Farewell(old(s.fd), s.closeErrno, s.asked)
      ensures s.closeErrno == if r == Over
              && (if s.direction == Input then answer.failed else answer.errno != EPIPE) then
                                answer.errno else old(s.closeErrno)
      decreases toCome, idle, 2
    {
      r := s.DoExchange(answer);
      OthersStay(s);
      assert r == Parked <==> old(NothingToDo(s));
      hide InOrder, Service.Inv, Service.Sound, Service.Core, Service.MayClose, NothingToDo, Farewell, Buffer.Valid,
           Buffer.Contents, Buffer.Room;
      FollowUp(s, r, reply, idle);
    }

    /** What follows reading or writing: bytes that have moved are notified, the end and errors close. */
    method FollowUp(s: Service, r: Exchange, reply: bool, ghost idle: set<Service>)
      requires OthersInv(s) && Idle(idle) && s in services && !s.active && !s.IsClosed() && !s.released
      requires s.MayClose() && (if r == Over then s.ending else s.Inv()) && (r == Moved ==> !s.canXfer)
      modifies this, services, mem
      ensures Inv() && Went() && s.stream == old(s.stream) && s.closeErrno == old(s.closeErrno)
      ensures r == Parked || r == Retry || (r == Moved && !s.notifies) ==>
                s.fd == old(s.fd) && s.log == old(s.log) && s.canXfer == old(s.canXfer)
                && unchanged(s.buffer) && unchanged(s.buffer.data)
      ensures r == Over || (r == Moved && s.notifies && !reply) ==> s.IsClosed()
      ensures s.log == old(s.log) + (if r == Moved && s.notifies then [Notified] else [])
                       + if s.IsClosed() then Farewell(old(s.fd), s.closeErrno, s.asked) else []
      decreases toCome, idle, 1
    {
      hide InOrder, Service.Inv, Service.Sound, Service.Core, Service.MayClose, Farewell;
      if r == Moved && s.notifies {
        NotifyAndClose(s, reply, idle);
      } else if r == Over {
        Close(s, idle);
      }
    }

    /** The notify callback of a service, and what follows it. */
    method NotifyAndClose(s: Service, reply: bool, ghost idle: set<Service>)
      requires Inv() && Idle(idle) && s in services && !s.active && !s.IsClosed() && !s.canXfer
      modifies this, services, mem
      ensures Inv() && Went() && s.stream == old(s.stream) && s.closeErrno == old(s.closeErrno)
      ensures !reply ==> s.IsClosed()
      ensures s.log == old(s.log) + [Notified]
                       + if s.IsClosed() then Farewell(old(s.fd), s.closeErrno, s.asked) else []
      decreases toCome, idle, 0, 2
    {
      var lazyClose := Notify(s, reply, idle);
      if lazyClose {
        Close(s, Still(idle));
      }
    }

    method BeginNotify(s: Service)
      requires Inv() && s in services && !s.active && !s.IsClosed() && !s.canXfer
      modifies s`active, s`log
      ensures Inv() && s.active && s.log == old(s.log) + [Notified]
    {
      s.EnterNotify();
    }

    method CallNotify(s: Service, ghost idle: set<Service>)
      requires Inv() && Idle(idle) && s in services && !s.active && !s.IsClosed() && !s.canXfer
      modifies this, services, mem
      ensures Inv() && OthersWent(s) && s.active && s.fd == old(s.fd) && s.log == old(s.log) + [Notified]
      ensures s.stream == old(s.stream) && s.closeErrno == old(s.closeErrno)
      ensures (old(s.asked) ==> s.asked) && (old(s.released) ==> s.released)
      decreases toCome, idle, 0, 0
    {
      BeginNotify(s);
      Callback(idle - {s});
    }

    /** The notify callback of a service. */
    method Notify(s: Service, reply: bool, ghost idle: set<Service>) returns (lazyClose: bool)
      requires Inv() && Idle(idle) && s in services && !s.active && !s.IsClosed() && !s.canXfer
      modifies this, services, mem
      ensures OthersInv(s) && s.MayClose() && s.ending == lazyClose && (!lazyClose ==> s.Inv())
      ensures Went() && s.fd == old(s.fd) && s.log == old(s.log) + [Notified] && (!reply ==> lazyClose)
      ensures s.stream == old(s.stream) && s.closeErrno == old(s.closeErrno)
      decreases toCome, idle, 0, 1
    {
      CallNotify(s, idle);
      lazyClose := s.LeaveNotify(reply);
    }

    method BeginClose(s: Service) returns (now: bool)
      requires OthersInv(s) && s in services && s.MayClose() && !s.released && s.ending
      modifies s`active, s`closed, s`fd, s`registered, s`log
      ensures Inv() && now == old(!s.IsClosed() && !s.active)
      ensures if now then s.active && s.IsClosed() && s.log == old(s.log) + [ClosedAt(old(s.fd), s.closeErrno)]
              else Kept(s) && s.fd == old(s.fd) && s.log == old(s.log)
    {
      var fd;
      now, fd := s.EnterClose();
    }

    /** fdu_bufio_close, which there is a reason for. */
    method Close(s: Service, ghost idle: set<Service>)
      requires OthersInv(s) && Idle(idle) && s in services && s.MayClose() && !s.released && s.ending
      modifies this, services, mem
      ensures Inv() && Went() && s.stream == old(s.stream) && s.closeErrno == old(s.closeErrno)
      ensures if old(s.active || s.IsClosed()) then s.fd == old(s.fd) && s.log == old(s.log)
              else s.IsClosed() && s.log == old(s.log) + Farewell(old(s.fd), s.closeErrno, s.asked)
      decreases toCome, idle, 0, 1
    {
      hide InOrder, Service.Inv, Service.Sound, Service.Core, Service.MayClose;
      var now := BeginClose(s);
      if now {
        TellClosed(s, idle);
      }
    }

    /** The close callback of a service, and what follows it. */
    method TellClosed(s: Service, ghost idle: set<Service>)
      requires Inv() && Idle(idle + {s}) && s in services && s.active && s.IsClosed() && s in idle
      modifies this, services, mem
      ensures Inv() && OthersWent(s) && !s.active && s.IsClosed()
      ensures s.log == old(s.log) + (if s.asked then [Released] else []) && s.stream == old(s.stream)
      ensures s.closeErrno == old(s.closeErrno) && (old(s.asked) ==> s.asked) && (old(s.released) ==> s.released)
      decreases toCome, idle, 0, 0
    {
      Callback(idle - {s});
      s.LeaveClose();
    }

    method BeginFree(s: Service) returns (now: bool)
      requires Inv() && s in services && !s.released
      modifies s`freed, s`asked, s`released, s`ending, s`log
      ensures OthersInv(s) && s.MayClose() && (!now ==> s.Inv()) && now == (!s.active && !s.IsClosed())
      ensures s.asked && s.ending && s.released == (!s.active && s.IsClosed()) && old(s.log) <= s.log
              && (s.active ==> s.freed && s.log == old(s.log))
    {
      now := s.EnterFree();
    }

    /** fdu_bufio_free. A service that is in the middle of a callback is released later. */
    method Free(s: Service, ghost idle: set<Service>)
      requires Inv() && Idle(idle) && s in services && !s.released
      modifies this, services, mem
      ensures Inv() && Went()
      ensures s.asked && (!old(s.active) ==> s.released)
      decreases toCome, idle, 2
    {
      hide InOrder, Service.Core;
      var now := BeginFree(s);
      if now {
        Close(s, idle);
      }
    }

    /** fdu_bufio_touch, given the same as GotEvent: a service that waits to be touched, and has room or
        bytes by now, reads or writes. */
    method Touch(s: Service, answer: Answer, reply: bool, ghost idle: set<Service>) returns (ok: bool)
      requires Inv() && Idle(idle) && s in services && !s.released && s.Keeps(answer)
      modifies this, services, mem
      ensures Inv() && Went() && ok == old(!s.IsClosed())
      ensures old(s.IsClosed() || !s.canXfer || NothingToDo(s)) ==>
                s.fd == old(s.fd) && s.log == old(s.log) && s.stream == old(s.stream)
      ensures old(!s.IsClosed() && s.canXfer && !NothingToDo(s)) ==>
                && (!answer.failed && answer.bytes != [] && s.notifies ==> old(s.log) + [Notified] <= s.log)
                && (!answer.failed && answer.bytes == [] && s.direction == Input ==> s.IsClosed())
                && (answer.failed && (answer.errno == EINTR || answer.errno == EAGAIN) ==>
                      s.fd == old(s.fd) && s.log == old(s.log) && s.stream == old(s.stream))
      decreases toCome, idle, 3
    {
      var go;
      ok, go := s.EnterTouch();
      if go {
        var _ := GotEvent(s, answer, reply, idle);
      }
    }

    /** fdu_new_input_bufio or fdu_new_output_bufio. */
    method Make()
      requires Inv() && toCome > 0
      modifies this
      ensures Inv() && Went() && toCome < old(toCome)
    {
      var direction: Direction, fd: nat, size: nat, notifies: bool := *, *, *, *;
      var s := new Service(direction, fd, size, notifies);
      services, mem, toCome := services + {s}, mem + {s.buffer, s.buffer.data}, toCome - 1;
    }

    /** The user's code: any number of calls, on any service that is not released yet, and services made. */
    method Callback(ghost idle: set<Service>)
      requires Inv() && Idle(idle)
      modifies this, services, mem
      ensures Inv() && Went()
      decreases toCome, idle, 5
    {
      var calls: nat := *;
      ghost var now := idle;
      while calls > 0
        invariant Inv() && Went() && Idle(now) && now == Still(idle)
      {
        OneThing(now);
        now := Still(idle);
        calls := calls - 1;
      }
    }

    method OneThing(ghost idle: set<Service>)
      requires Inv() && Idle(idle)
      modifies this, services, mem
      ensures Inv() && Went()
      decreases toCome, idle, 4, 1
    {
      var make: bool := *;
      if make && toCome > 0 {
        Make();
      } else if services != {} {
        var s :| s in services;
        if !s.released {
          AnyCall(s, idle);
        }
      }
    }

    method AnyCall(s: Service, ghost idle: set<Service>)
      requires Inv() && Idle(idle) && s in services && !s.released
      modifies this, services, mem
      ensures Inv() && Went()
      decreases toCome, idle, 4, 0
    {
      var which: int, reply: bool := *, *;
      if which == 0 {
        var answer := SystemAnswer(s);
        var _ := Touch(s, answer, reply, idle);
      } else if which == 1 {
        s.ending := true;
        Close(s, idle);
      } else if which == 2 {
        Free(s, idle);
      } else {
        UseBuffer(s);
      }
    }

    /** What the system answers if it is asked. */
    method SystemAnswer(s: Service) returns (answer: Answer)
      requires Inv() && s in services
      ensures s.Keeps(answer)
    {
      answer := *;
      if !s.Keeps(answer) {
        answer := answer.(bytes := []);
      }
    }

    /** The user takes bytes out of a buffer, or puts some in. */
    method UseBuffer(s: Service)
      requires Inv() && s in services
      modifies s.buffer, s.buffer.data
      ensures Inv()
    {
      var n: nat, bytes: seq<byte> := *, *;
      if n <= s.buffer.filled {
        s.buffer.Drop(n);
      }
      if |bytes| <= s.buffer.Room() {
        s.buffer.Append(bytes);
      }
    }

    ghost predicate Quiet()
      reads this, services
    {
      forall s :: s in services ==> !s.active
    }

    /** An event for one of the services that are registered. */
    method Event()
      requires Inv() && Quiet()
      modifies this, services, mem
      ensures Inv() && Went()
    {
      if services != {} {
        var s :| s in services;
        if s.registered {
          assert !s.IsClosed();
          hide InOrder, Farewell, Service.Inv, Service.Sound, Service.Core, Service.MayClose, Service.Keeps;
          var answer := SystemAnswer(s);
          var reply: bool := *;
          var _ := GotEvent(s, answer, reply, services);
        }
      }
    }
  }

  /** A round of the dispatcher: an event comes in for a service that is registered, or some other user
      code runs. */
  method Round(w: World)
    requires w.Inv() && w.Quiet()
    modifies w, w.services, w.mem
    ensures w.Inv() && w.Quiet() && fresh(w.services - old(w.services)) && fresh(w.mem - old(w.mem))
  {
    w.toCome := *;
    var event: bool := *;
    if event {
      w.Event();
    } else {
      w.Callback(w.services);
    }
  }

  /** Any number of rounds of the dispatcher: events come in for services that are registered, and the
      users make services and call what they like. At every point where no callback is running, each
      service has had its notify callbacks first, then at most one close callback, then at most one
      release, which it has got if and only if it was asked for. It is closed if and only if there was a
      reason: the end or a failure, a notify callback that said so, or a call of its user. */
  method Run() returns (w: World)
    ensures w.Inv() && w.Quiet()
    ensures forall s :: s in w.services ==> InOrder(s.log, !s.IsClosed(), s.released) && s.released == s.asked
                                            && (s.IsClosed() <==> s.ending)
  {
    w := new World();
    var rounds: nat := *;
    while rounds > 0
      invariant w.Inv() && w.Quiet() && fresh(w) && fresh(w.services) && fresh(w.mem)
    {
      Round(w);
      rounds := rounds - 1;
    }
  }
}
