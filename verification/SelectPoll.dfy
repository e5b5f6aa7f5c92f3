/** The select back-end of the dispatcher (dispatcher_select.c): a table of handlers, two descriptor
    sets for each direction, and a poll whose callbacks change them while it goes through them. */
module SelectPoll {
  import opened Directions

  /** A handler; 0 is the null pointer. */
  type Handler = nat

  /** How a loop of a poll ends. */
  datatype End = GoOn | AllDone | Aborted

  /** fd_block_node_t. */
  datatype Node = Node(input: Handler, output: Handler)

  function HandlerOf(n: Node, d: Direction): Handler {
    if d == Input then n.input else n.output
  }

  function WithHandler(n: Node, d: Direction, h: Handler): Node {
    if d == Input then n.(input := h) else n.(output := h)
  }

  /** The entry of a descriptor; there are none behind the end. */
  function NodeAt(nodes: seq<Node>, fd: nat): Node {
    if fd < |nodes| then nodes[fd] else Node(0, 0)
  }

  /** One handler has been set, all others are what they were in `nodes`. */
  ghost predicate IsSet(block: array<Node>, nodes: seq<Node>, d: Direction, fd: nat, h: Handler)
    reads block
  {
    forall k :: 0 <= k < block.Length ==>
      block[k] == if k == fd then WithHandler(NodeAt(nodes, k), d, h) else NodeAt(nodes, k)
  }

  ghost predicate IsSame(block: array<Node>, nodes: seq<Node>)
    reads block
  {
    forall k :: 0 <= k < block.Length ==> block[k] == NodeAt(nodes, k)
  }

  /** cached_fd, current_fd and nfds of one direction. */
  datatype Side = Side(cached: set<nat>, current: set<nat>, nfds: nat)

  /** During a poll: what select has reported, what has been dispatched, and what has been added or
      removed before it was. */
  datatype Track = Track(ready: set<nat>, touched: set<nat>, done: set<nat>)

  datatype Call = Call(direction: Direction, fd: nat, handler: Handler)

  /** What select comes back with. */
  datatype Answer = Answer(failed: bool, errno: int, readable: set<nat>, writable: set<nat>)

  const EINTR: int := 4
  const EAGAIN: int := 11

  /** All of the callbacks say that the poll may go on. */
  ghost predicate Agreed(calls: seq<Call>, reply: Call -> bool) {
    forall i :: 0 <= i < |calls| ==> reply(calls[i])
  }

  /** The last callback does not. */
  ghost predicate Refused(calls: seq<Call>, reply: Call -> bool) {
    calls != [] && Agreed(calls[..|calls| - 1], reply) && !reply(calls[|calls| - 1])
  }

  /** What has happened since a poll began: a notify callback, or a descriptor added or removed. */
  datatype Event = Made(call: Call) | Changed(direction: Direction, at: nat)

  function Touched(t: Track, fd: nat): Track {
    t.(touched := t.touched + ({fd} - t.done))
  }

  function Dispatched(t: Track, fd: nat): Track {
    t.(done := t.done + {fd})
  }

  function Play(t: Track, d: Direction, ev: Event): Track {
    match ev
    case Made(c) => if c.direction == d then Dispatched(t, c.fd) else t
    case Changed(direction, fd) => if direction == d then Touched(t, fd) else t
  }

  /** What has been dispatched of `ready`, and what has been added or removed before it was. */
  function Played(d: Direction, ready: set<nat>, log: seq<Event>): Track {
    if log == [] then Track(ready, {}, {}) else Play(Played(d, ready, log[..|log| - 1]), d, log[|log| - 1])
  }

  function CallsIn(log: seq<Event>): seq<Call> {
    if log == [] then []
    else CallsIn(log[..|log| - 1]) + if log[|log| - 1].Made? then [log[|log| - 1].call] else []
  }

  lemma PlayedMore(d: Direction, ready: set<nat>, log: seq<Event>, ev: Event)
    ensures Played(d, ready, log + [ev]) == Play(Played(d, ready, log), d, ev)
    ensures CallsIn(log + [ev]) == CallsIn(log) + if ev.Made? then [ev.call] else []
  {
    assert (log + [ev])[..|log|] == log;
  }

  predicate IsCall(ev: Event, d: Direction, fd: nat) {
    ev.Made? && ev.call.direction == d && ev.call.fd == fd
  }

  ghost predicate Called(log: seq<Event>, d: Direction, fd: nat) {
    exists i :: 0 <= i < |log| && IsCall(log[i], d, fd)
  }

  /** The i-th event adds or removes the descriptor, and there was no call for it before. */
  predicate Precedes(log: seq<Event>, d: Direction, fd: nat, i: nat) {
    i < |log| && log[i] == Changed(d, fd) && forall j :: 0 <= j < i ==> !IsCall(log[j], d, fd)
  }

  /** A descriptor counts as dispatched if there was a call for it, and as touched if it was added or
      removed before any call for it. */
  lemma {:induction false} PlayedMeans(d: Direction, ready: set<nat>, log: seq<Event>, fd: nat)
    ensures fd in Played(d, ready, log).done <==> Called(log, d, fd)
    ensures fd in Played(d, ready, log).touched <==> exists i: nat :: Precedes(log, d, fd, i)
  {
    if log != [] {
      var n := |log| - 1;
      var front, ev := log[..n], log[n];
      PlayedMeans(d, ready, front, fd);
      assert IsCall(ev, d, fd) ==> Called(log, d, fd);
      if i :| 0 <= i < n && IsCall(front[i], d, fd) {
        assert IsCall(log[i], d, fd);
      }
      if i: nat :| Precedes(front, d, fd, i) {
        assert Precedes(log, d, fd, i);
      }
      if i: nat :| Precedes(log, d, fd, i) && i < n {
        assert Precedes(front, d, fd, i);
      }
      assert ev == Changed(d, fd) && !Called(front, d, fd) ==> Precedes(log, d, fd, n);
    }
  }

  /** The cached set is the set of handlers, and nfds is one above the largest of it. */
  ghost predicate SideOk(block: array<Node>, s: Side, d: Direction)
    reads block
  {
    && s.current <= s.cached && s.nfds <= block.Length && (s.nfds > 0 ==> s.nfds - 1 in s.cached)
    && (forall fd :: fd in s.cached ==> fd < s.nfds && HandlerOf(block[fd], d) != 0)
    && (forall fd :: 0 <= fd < block.Length && HandlerOf(block[fd], d) != 0 ==> fd in s.cached)
  }

  /** What is still to be dispatched is what is ready, and neither dispatched nor touched; its handlers
      are those of the start. */
  ghost predicate TrackOk(block: array<Node>, s: Side, t: Track, entry: seq<Node>, d: Direction)
    reads block
  {
    && s.current == t.ready - t.done - t.touched && t.done <= t.ready && t.done !! t.touched
    && (forall fd :: fd in s.current ==> fd < |entry| && fd < block.Length
                                         && HandlerOf(block[fd], d) == HandlerOf(entry[fd], d))
  }

  class Select {
    var block: array<Node>
    var r: Side
    var w: Side
    ghost var tr: Track
    ghost var tw: Track
    ghost var entry: seq<Node>        // the table at the start of the poll
    ghost var calls: seq<Call>        // the notify callbacks made since
    ghost var log: seq<Event>         // and all that has happened

    ghost predicate Valid()
      reads this, block
    {
      Tables() && Recorded()
    }

    /** The tracks are what the log says. */
    ghost predicate Recorded()
      reads `tr, `tw, `calls, `log
    {
      tr == Played(Input, tr.ready, log) && tw == Played(Output, tw.ready, log) && calls == CallsIn(log)
    }

    ghost predicate Tables()
      reads `block, `r, `w, `tr, `tw, `entry, block
    {
      && SideOk(block, r, Input) && SideOk(block, w, Output)
      && TrackOk(block, r, tr, entry, Input) && TrackOk(block, w, tw, entry, Output)
    }

    constructor ()
      ensures Valid() && fresh(block) && r.cached == {} == w.cached
    {
      block := new Node[0];
      r, w := Side({}, {}, 0), Side({}, {}, 0);
      tr, tw, entry, calls, log := Track({}, {}, {}), Track({}, {}, {}), [], [], [];
    }

    function SideOf(d: Direction): Side
      reads this
    {
      if d == Input then r else w
    }

    ghost function TrackOf(d: Direction): Track
      reads this
    {
      if d == Input then tr else tw
    }

    /** resize_fd_block. */
    method Resize(fd: nat)
      requires Valid()
      modifies `block
      ensures Valid() && fd < block.Length && (block == old(block) || fresh(block))
      ensures Extends(block, old(block))
    {
      var size := if block.Length == 0 then 64 else block.Length;
      while size <= fd
        invariant size >= block.Length && size > 0
      {
        size := size * 2;
      }
      if size > block.Length {
        var bigger := Grow(block, size);
        SideExtends(block, bigger, r, Input);
        SideExtends(block, bigger, w, Output);
        block := bigger;
      }
    }

    // ----- registering

    /** What an add or a remove changes at most: `fd` in one direction. */
    twostate predicate OnlyTouches(d: Direction, fd: nat)
      reads this
    {
      && entry == old(entry) && calls == old(calls) && log == old(log) + [Changed(d, fd)]
      && TrackOf(Other(d)) == old(TrackOf(Other(d))) && SideOf(Other(d)) == old(SideOf(Other(d)))
      && TrackOf(d).ready == old(TrackOf(d).ready) && TrackOf(d).done == old(TrackOf(d).done)
      && TrackOf(d).touched == old(TrackOf(d).touched) + ({fd} - old(TrackOf(d).done))
      && SideOf(d).cached - {fd} == old(SideOf(d).cached) - {fd}
      && SideOf(d).current == old(SideOf(d).current) - {fd}
    }

    /** What a callback keeps while a poll goes on: nothing is dispatched, and what counts as touched is
        what it has added or removed. */
    twostate predicate During()
      reads this
    {
      && entry == old(entry) && calls == old(calls) && old(log) <= log
      && Later(tr, old(tr), r, old(r)) && Later(tw, old(tw), w, old(w))
    }

    /** SELECT_add_input and SELECT_add_output. They refuse a descriptor that has a handler. */
    method Add(d: Direction, fd: nat, handler: Handler) returns (ok: bool)
      requires Valid() && handler != 0
      modifies this, block
      ensures Valid() && (block == old(block) || fresh(block))
      ensures ok == (fd !in old(SideOf(d).cached))
      ensures ok ==> fd in SideOf(d).cached && HandlerOf(block[fd], d) == handler && OnlyTouches(d, fd)
      ensures During()
      ensures if ok then IsSet(block, old(block[..]), d, fd, handler) else IsSame(block, old(block[..]))
      ensures !ok ==> r == old(r) && w == old(w) && tr == old(tr) && tw == old(tw) && entry == old(entry)
                      && calls == old(calls) && log == old(log)
    {
      ghost var nodes := block[..];
      if fd >= block.Length {
        Resize(fd);
      }
      ok := AddAt(d, fd, handler, nodes);
    }

    method AddAt(d: Direction, fd: nat, handler: Handler, ghost nodes: seq<Node>) returns (ok: bool)
      requires Valid() && handler != 0 && fd < block.Length && IsSame(block, nodes)
      modifies `r, `w, `tr, `tw, `log, block
      ensures Valid() && During() && ok == (fd !in old(SideOf(d).cached))
      ensures ok ==> fd in SideOf(d).cached && HandlerOf(block[fd], d) == handler && OnlyTouches(d, fd)
      ensures if ok then IsSet(block, nodes, d, fd, handler) else IsSame(block, nodes)
      ensures !ok ==> r == old(r) && w == old(w) && tr == old(tr) && tw == old(tw) && log == old(log)
    {
      ok := HandlerOf(block[fd], d) == 0;
      if ok {
        Register(d, fd, handler);
      }
    }

    method Register(d: Direction, fd: nat, handler: Handler)
      requires Valid() && handler != 0 && fd < block.Length && fd !in SideOf(d).cached
      modifies `r, `w, `tr, `tw, `log, block
      ensures Valid() && fd in SideOf(d).cached && HandlerOf(block[fd], d) == handler && OnlyTouches(d, fd)
      ensures IsSet(block, old(block[..]), d, fd, handler) && During()
    {
      var s := SideOf(d);
      PutHandler(block, d, fd, handler, s, TrackOf(d), SideOf(Other(d)), TrackOf(Other(d)), entry);
      Store(d, With(s, fd), fd);
    }

    /** SELECT_remove_input and SELECT_remove_output. */
    method Remove(d: Direction, fd: nat) returns (ok: bool)
      requires Valid()
      modifies this, block
      ensures Valid() && block == old(block) && ok == (fd < block.Length)
      ensures ok ==> fd !in SideOf(d).cached && OnlyTouches(d, fd)
      ensures During()
      ensures if ok then IsSet(block, old(block[..]), d, fd, 0) else IsSame(block, old(block[..]))
      ensures !ok ==> r == old(r) && w == old(w) && tr == old(tr) && tw == old(tw) && entry == old(entry)
                      && calls == old(calls) && log == old(log)
    {
      if fd >= block.Length {
        return false;
      }
      Unregister(d, fd);
      ok := true;
    }

    method Unregister(d: Direction, fd: nat)
      requires Valid() && fd < block.Length
      modifies `r, `w, `tr, `tw, `log, block
      ensures Valid() && fd !in SideOf(d).cached && OnlyTouches(d, fd)
      ensures IsSet(block, old(block[..]), d, fd, 0) && During()
    {
      var s := SideOf(d);
      var nfds := TakeHandler(block, d, fd, s, TrackOf(d), SideOf(Other(d)), TrackOf(Other(d)), entry);
      Store(d, Side(s.cached - {fd}, s.current - {fd}, nfds), fd);
    }

    /** SELECT_empty: nothing is registered. */
    predicate Empty()
      requires Valid()
      reads this, block
      ensures Empty() <==> r.cached == {} && w.cached == {}
    {
      r.nfds == 0 && w.nfds == 0
    }

    // ----- polling

    /** The user's code: any number of adds and removes. */
    method Callback()
      requires Valid()
      modifies this, block
      ensures Valid() && During() && (block == old(block) || fresh(block))
    {
      var n: nat := *;
      while n > 0
        invariant Valid() && During() && (block == old(block) || fresh(block))
      {
        var d: Direction, fd: nat, handler: Handler := *, *, *;
        AddOrRemove(d, fd, handler);
        n := n - 1;
      }
    }

    method AddOrRemove(d: Direction, fd: nat, handler: Handler)
      requires Valid()
      modifies this, block
      ensures Valid() && During() && (block == old(block) || fresh(block))
    {
      var ok;
      if handler == 0 {
        ok := Remove(d, fd);
      } else {
        ok := Add(d, fd, handler);
      }
    }

    /** The notify callback of one descriptor that is ready. */
    method DispatchOne(d: Direction, fd: nat, reply: Call -> bool) returns (goOn: bool)
      requires Valid() && LogOk(calls, tr, tw, entry) && fd in SideOf(d).current
      modifies this, block
      ensures Valid() && LogOk(calls, tr, tw, entry) && (block == old(block) || fresh(block))
      ensures entry == old(entry) && fd !in SideOf(d).current
      ensures Later(TrackOf(d), Dispatched(old(TrackOf(d)), fd), SideOf(d), old(SideOf(d)))
      ensures Later(TrackOf(Other(d)), old(TrackOf(Other(d))), SideOf(Other(d)), old(SideOf(Other(d))))
      ensures |calls| == old(|calls|) + 1 && old(calls) <= calls && old(log) <= log
      ensures goOn == reply(calls[|calls| - 1])
    {
      var handler := HandlerOf(block[fd], d);
      MarkDispatched(d, fd, handler);
      Callback();
      goOn := reply(Call(d, fd, handler));
    }

    method MarkDispatched(d: Direction, fd: nat, handler: Handler)
      requires Valid() && LogOk(calls, tr, tw, entry) && fd in SideOf(d).current && handler == HandlerOf(block[fd], d)
      modifies `r, `w, `tr, `tw, `calls, `log
      ensures Valid() && LogOk(calls, tr, tw, entry)
      ensures TrackOf(d) == Dispatched(old(TrackOf(d)), fd) && TrackOf(Other(d)) == old(TrackOf(Other(d)))
      ensures SideOf(d) == old(SideOf(d)).(current := old(SideOf(d)).current - {fd})
              && SideOf(Other(d)) == old(SideOf(Other(d)))
      ensures calls == old(calls) + [Call(d, fd, handler)] && log == old(log) + [Made(Call(d, fd, handler))]
    {
      LogMore(calls, tr, tw, entry, d, fd, handler);
      Mark(d, fd);
      Note(Made(Call(d, fd, handler)), old(tr), old(tw));
    }

    /** What has happened is put down. */
    ghost method Note(ev: Event, before: Track, before': Track)
      requires before == Played(Input, before.ready, log) && before' == Played(Output, before'.ready, log)
               && calls == CallsIn(log)
      requires tr == Play(before, Input, ev) && tw == Play(before', Output, ev)
      modifies `calls, `log
      ensures Recorded() && log == old(log) + [ev] && calls == old(calls) + if ev.Made? then [ev.call] else []
    {
      PlayedMore(Input, before.ready, log, ev);
      PlayedMore(Output, before'.ready, log, ev);
      calls, log := calls + (if ev.Made? then [ev.call] else []), log + [ev];
    }

    method Mark(d: Direction, fd: nat)
      requires Tables() && fd in SideOf(d).current
      modifies `r, `w, `tr, `tw
      ensures Tables()
      ensures TrackOf(d) == Dispatched(old(TrackOf(d)), fd) && TrackOf(Other(d)) == old(TrackOf(Other(d)))
      ensures SideOf(d) == old(SideOf(d)).(current := old(SideOf(d)).current - {fd})
              && SideOf(Other(d)) == old(SideOf(Other(d)))
    {
      if d == Input {
        r, tr := r.(current := r.current - {fd}), Dispatched(tr, fd);
      } else {
        w, tw := w.(current := w.current - {fd}), Dispatched(tw, fd);
      }
    }

    /** What every step of a poll keeps. */
    twostate predicate SamePoll()
      reads this
    {
      && entry == old(entry) && old(log) <= log && tr.ready == old(tr.ready) && tw.ready == old(tw.ready)
      && r.current <= old(r.current) && w.current <= old(w.current)
    }

    /** Where a poll stands: `fdCount` descriptors are still to come, counting those that are not to be
        dispatched any more. */
    ghost predicate Going(fdCount: nat)
      reads this, block
    {
      Valid() && LogOk(calls, tr, tw, entry) && fdCount + |calls| == |tr.ready| + |tw.ready|
    }

    /** How the callbacks have been answered when a loop ends like that. */
    ghost predicate Answered(end: End, reply: Call -> bool)
      reads this
    {
      if end == Aborted then Refused(calls, reply) else Agreed(calls, reply)
    }

    /** The loop over one direction; `nfds` may change at each turn. */
    method DispatchSide(d: Direction, fdCount: nat, reply: Call -> bool) returns (fdCount': nat, end: End)
      requires Going(fdCount) && fdCount > 0 && Agreed(calls, reply)
      modifies this, block
      ensures Going(fdCount') && SamePoll() && (block == old(block) || fresh(block))
      ensures Answered(end, reply)
      ensures end == GoOn ==> fdCount' > 0 && SideOf(d).current == {}
      ensures end == AllDone ==> fdCount' == 0
    {
      fdCount', end := fdCount, GoOn;
      var fd := 0;
      while fd < SideOf(d).nfds
        invariant Going(fdCount') && SamePoll() && (block == old(block) || fresh(block))
        invariant end == GoOn && fdCount' > 0 && Agreed(calls, reply)
        invariant forall x :: x in SideOf(d).current ==> x >= fd
        decreases fdCount', SideOf(d).nfds - fd
      {
        if fd in SideOf(d).current {
          fdCount', end := DispatchNext(d, fd, fdCount', reply);
          if end != GoOn {
            return;
          }
        }
        fd := fd + 1;
      }
    }

    method DispatchNext(d: Direction, fd: nat, fdCount: nat, reply: Call -> bool) returns (fdCount': nat, end: End)
      requires Going(fdCount) && fdCount > 0 && fd in SideOf(d).current && Agreed(calls, reply)
      modifies this, block
      ensures Going(fdCount') && SamePoll() && (block == old(block) || fresh(block))
      ensures fdCount' == fdCount - 1 && fd !in SideOf(d).current && (end == GoOn ==> fdCount' > 0)
      ensures end == AllDone ==> fdCount' == 0
      ensures Answered(end, reply)
    {
      var goOn := DispatchOne(d, fd, reply);
      fdCount' := fdCount - 1;
      end := if !goOn then Aborted else if fdCount' == 0 then AllDone else GoOn;
    }

    /** SELECT_poll, given what select comes back with, which is some of what it was asked about or a
        failure, and what resolve_notify_return says of each callback. Each descriptor reported has its
        handler called once, unless it was removed, or removed and added again, before its turn; but a
        callback that is not resolved is the last. */
    method Poll(answer: Answer, reply: Call -> bool) returns (ok: bool)
      requires Valid() && (!answer.failed ==> answer.readable <= r.cached && answer.writable <= w.cached)
      modifies this, block
      ensures Valid() && LogOk(calls, tr, tw, entry) && entry == old(block[..])
      ensures answer.failed || (answer.readable == {} && answer.writable == {}) ==>
                && log == [] && calls == [] && block[..] == entry
                && (ok <==> !answer.failed || answer.errno == EINTR || answer.errno == EAGAIN)
      ensures !answer.failed ==>
                && tr.ready == answer.readable && tw.ready == answer.writable
                && (ok ==> answer.readable <= tr.done + tr.touched && answer.writable <= tw.done + tw.touched)
                && (forall i :: 0 <= i < |calls| ==> (reply(calls[i]) <==> ok || i < |calls| - 1))
                && (!ok ==> calls != [])
    {
      hide SideOk, TrackOk, LogOk, Played, CallsIn;
      entry := block[..];
      if answer.failed {
        Begin(r.cached, w.cached);
        return answer.errno == EINTR || answer.errno == EAGAIN;
      }
      Begin(answer.readable, answer.writable);
      if |answer.readable| + |answer.writable| == 0 {
        return true;
      }
      ok := Dispatch(|answer.readable| + |answer.writable|, reply);
    }

    method Dispatch(fdCount: nat, reply: Call -> bool) returns (ok: bool)
      requires Going(fdCount) && fdCount > 0 && calls == []
      modifies this, block
      ensures Valid() && LogOk(calls, tr, tw, entry) && SamePoll()
      ensures ok ==> tr.ready <= tr.done + tr.touched && tw.ready <= tw.done + tw.touched
      ensures Answered(if ok then AllDone else Aborted, reply)
    {
      hide SideOk, LogOk, Played, CallsIn;
      var n, end := DispatchSide(Input, fdCount, reply);
      if end == GoOn {
        n, end := DispatchSide(Output, n, reply);
      }
      ok := end != Aborted;
      if end == AllDone {
        AllOfThem(tr, tw, calls, entry);
      } else if end == GoOn {
        NoneLeft(block, r, tr, entry, Input);
        NoneLeft(block, w, tw, entry, Output);
      }
    }

    method Begin(readable: set<nat>, writable: set<nat>)
      requires SideOk(block, r, Input) && SideOk(block, w, Output) && readable <= r.cached && writable <= w.cached
      requires entry == block[..]
      modifies `r, `w, `tr, `tw, `calls, `log
      ensures Valid() && LogOk(calls, tr, tw, entry) && calls == [] && log == []
      ensures tr == Track(readable, {}, {}) && tw == Track(writable, {}, {})
    {
      calls, log := [], [];
      r, w := r.(current := readable), w.(current := writable);
      tr, tw := Track(readable, {}, {}), Track(writable, {}, {});
    }

    /** The globals of one direction are written back, after an add or a remove of `fd`. */
    method Store(d: Direction, s: Side, ghost fd: nat)
      requires Recorded()
      modifies `r, `w, `tr, `tw, `log
      ensures SideOf(d) == s && SideOf(Other(d)) == old(SideOf(Other(d)))
      ensures TrackOf(d) == Touched(old(TrackOf(d)), fd)
      ensures TrackOf(Other(d)) == old(TrackOf(Other(d)))
      ensures Recorded() && log == old(log) + [Changed(d, fd)]
    {
      PlayedMore(Input, tr.ready, log, Changed(d, fd));
      PlayedMore(Output, tw.ready, log, Changed(d, fd));
      log := log + [Changed(d, fd)];
      if d == Input {
        r, tr := s, Touched(tr, fd);
      } else {
        w, tw := s, Touched(tw, fd);
      }
    }
  }

  /** One direction after a callback: nothing has become ready, nor counts as dispatched. */
  ghost predicate Later(t: Track, t0: Track, s: Side, s0: Side) {
    t.ready == t0.ready && t.done == t0.done && t0.touched <= t.touched && s.current <= s0.current
  }

  /** The calls made are one for each descriptor and direction that counts as dispatched, each of the
      handler registered when the poll began. */
  ghost predicate LogOk(calls: seq<Call>, tr: Track, tw: Track, entry: seq<Node>) {
    && |calls| == |tr.done| + |tw.done|
    && (forall c :: c in calls ==> IsDispatch(c, if c.direction == Input then tr.done else tw.done, entry))
    && (forall i, j :: 0 <= i < j < |calls| ==> calls[i] != calls[j])
  }

  ghost predicate IsDispatch(c: Call, done: set<nat>, entry: seq<Node>) {
    c.fd in done && c.fd < |entry| && c.handler == HandlerOf(entry[c.fd], c.direction) && c.handler != 0
  }

  lemma LogMore(calls: seq<Call>, tr: Track, tw: Track, entry: seq<Node>, d: Direction, fd: nat, handler: Handler)
    requires LogOk(calls, tr, tw, entry) && fd < |entry| && handler == HandlerOf(entry[fd], d) && handler != 0
    requires fd !in (if d == Input then tr else tw).done
    ensures LogOk(calls + [Call(d, fd, handler)], if d == Input then Dispatched(tr, fd) else tr,
                  if d == Input then tw else Dispatched(tw, fd), entry)
  {
    var tr', tw' := if d == Input then Dispatched(tr, fd) else tr, if d == Input then tw else Dispatched(tw, fd);
    var more := calls + [Call(d, fd, handler)];
    assert Call(d, fd, handler) !in calls;
    forall c | c in more ensures IsDispatch(c, if c.direction == Input then tr'.done else tw'.done, entry) {
      assert c in calls || c == Call(d, fd, handler);
    }
  }

  /** When the count has come down to nothing, everything that was ready has been dispatched. */
  lemma AllOfThem(tr: Track, tw: Track, calls: seq<Call>, entry: seq<Node>)
    requires LogOk(calls, tr, tw, entry) && |calls| == |tr.ready| + |tw.ready| && tr.done <= tr.ready
             && tw.done <= tw.ready
    ensures tr.done == tr.ready && tw.done == tw.ready
  {
    Smaller(tr.done, tr.ready);
    Smaller(tw.done, tw.ready);
  }

  lemma NoneLeft(block: array<Node>, s: Side, t: Track, entry: seq<Node>, d: Direction)
    requires TrackOk(block, s, t, entry, d) && s.current == {}
    ensures t.ready <= t.done + t.touched
  {
    assert t.ready <= t.ready - t.done - t.touched + (t.done + t.touched);
  }

  lemma Smaller(a: set<nat>, b: set<nat>)
    requires a <= b
    ensures |a| <= |b| && (|a| == |b| ==> a == b)
  {
    assert b == a + (b - a);
    assert |b| == |a| + |b - a|;
  }

  /** The new block has the entries of the old one, and empty ones behind. */
  ghost predicate Extends(bigger: array<Node>, block: array<Node>)
    reads bigger, block
  {
    && block.Length <= bigger.Length
    && (forall k :: 0 <= k < block.Length ==> bigger[k] == block[k])
    && (forall k :: block.Length <= k < bigger.Length ==> bigger[k] == Node(0, 0))
  }

  /** The loop that takes nfds down to the last handler. */
  method LastUsed(block: array<Node>, d: Direction, nfds: nat) returns (n: nat)
    requires nfds <= block.Length
    ensures n <= nfds && (n > 0 ==> HandlerOf(block[n - 1], d) != 0)
    ensures forall k :: n <= k < nfds ==> HandlerOf(block[k], d) == 0
  {
    n := nfds;
    while n > 0 && HandlerOf(block[n - 1], d) == 0
      invariant n <= nfds && forall k :: n <= k < nfds ==> HandlerOf(block[k], d) == 0
    {
      n := n - 1;
    }
  }

  function With(s: Side, fd: nat): Side {
    Side(s.cached + {fd}, s.current - {fd}, if s.nfds < fd + 1 then fd + 1 else s.nfds)
  }

  method PutHandler(block: array<Node>, d: Direction, fd: nat, h: Handler,
                    ghost s: Side, ghost t: Track, ghost s': Side, ghost t': Track, ghost entry: seq<Node>)
    requires fd < block.Length && h != 0
    requires SideOk(block, s, d) && TrackOk(block, s, t, entry, d)
    requires SideOk(block, s', Other(d)) && TrackOk(block, s', t', entry, Other(d))
    modifies block
    ensures HandlerOf(block[fd], d) == h && SideOk(block, With(s, fd), d)
            && TrackOk(block, With(s, fd), Touched(t, fd), entry, d)
    ensures SideOk(block, s', Other(d)) && TrackOk(block, s', t', entry, Other(d))
    ensures IsSet(block, old(block[..]), d, fd, h)
  {
    SetHandler(block, d, fd, h);
  }

  method TakeHandler(block: array<Node>, d: Direction, fd: nat,
                     s: Side, ghost t: Track, ghost s': Side, ghost t': Track, ghost entry: seq<Node>)
    returns (nfds: nat)
    requires fd < block.Length
    requires SideOk(block, s, d) && TrackOk(block, s, t, entry, d)
    requires SideOk(block, s', Other(d)) && TrackOk(block, s', t', entry, Other(d))
    modifies block
    ensures var s1 := Side(s.cached - {fd}, s.current - {fd}, nfds);
            SideOk(block, s1, d) && TrackOk(block, s1, Touched(t, fd), entry, d)
    ensures SideOk(block, s', Other(d)) && TrackOk(block, s', t', entry, Other(d))
    ensures IsSet(block, old(block[..]), d, fd, 0)
  {
    SetHandler(block, d, fd, 0);
    nfds := LastUsed(block, d, s.nfds);
  }

  method SetHandler(block: array<Node>, d: Direction, fd: nat, h: Handler)
    requires fd < block.Length
    modifies block
    ensures HandlerOf(block[fd], d) == h && IsSet(block, old(block[..]), d, fd, h)
    ensures forall k :: 0 <= k < block.Length && k != fd ==> HandlerOf(block[k], d) == old(HandlerOf(block[k], d))
    ensures forall k :: 0 <= k < block.Length ==> HandlerOf(block[k], Other(d)) == old(HandlerOf(block[k], Other(d)))
  {
    block[fd] := WithHandler(block[fd], d, h);
  }

  method Grow(block: array<Node>, size: nat) returns (bigger: array<Node>)
    requires block.Length <= size
    ensures fresh(bigger) && bigger.Length == size && Extends(bigger, block)
  {
    bigger := new Node[size](_ => Node(0, 0));
    var k := 0;
    while k < block.Length
      invariant k <= block.Length && forall j :: 0 <= j < k ==> bigger[j] == block[j]
      invariant forall j :: k <= j < size ==> bigger[j] == Node(0, 0)
    {
      bigger[k] := block[k];
      k := k + 1;
    }
  }

  lemma SideExtends(block: array<Node>, bigger: array<Node>, s: Side, d: Direction)
    requires SideOk(block, s, d) && Extends(bigger, block)
    ensures SideOk(bigger, s, d)
  {
  }
}
