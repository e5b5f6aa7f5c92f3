/** The ZeroMQ back-end of the dispatcher (dispatcher_zmq.c), for file descriptors. An entry that is
    removed while a poll goes through its events waits on a list of its own until the poll is over. */
module ZmqPoll {
  import opened Directions
  import opened EntryList

  const ALLOCATION_BLOCK: nat := 16

  function ServiceOf(e: Entry, d: Direction): Service
    reads e`input, e`output
  {
    if d == Input then e.input else e.output
  }

  /** What the poller knows of a descriptor: the user data and the events to watch for. */
  datatype Watch = Watch(entry: Entry, input: bool, output: bool)

  /** zmq_poller_event_t. */
  datatype Event = Event(entry: Entry, fd: int, input: bool, output: bool)

  /** What zmq_poller_wait_all comes back with. */
  datatype Answer = Answer(failed: bool, errno: int, events: seq<Event>)

  const EINTR: int := 4
  const ETIMEDOUT: int := 110

  /** What users have done to the registrations since a poll began; 0 stands for a removal. */
  datatype Op = Op(d: Direction, fd: int, service: Service)

  /** The services, input and output, that a waiting event for `fd` can reach after one more step. Once
      there are none it reaches nobody any more, whoever comes. */
  function Step(s: (Service, Service), fd: int, op: Op): (Service, Service) {
    if op.fd != fd || s == (0, 0) then s
    else if op.d == Input then (op.service, s.1)
    else (s.0, op.service)
  }

  /** And after all of `ops`, if they were `s` when the poll began. */
  function Live(s: (Service, Service), fd: int, ops: seq<Op>): (Service, Service) {
    if ops == [] then s else Step(Live(s, fd, ops[..|ops| - 1]), fd, ops[|ops| - 1])
  }

  /** What comes of one direction of an event: the service is called; or the event is not for that
      direction; or there is no service any more. */
  datatype Outcome = Called(fd: int, service: Service) | NotAsked | Gone

  /** And how much users had done before. */
  datatype Turn = Turn(at: nat, outcome: Outcome)

  function Asked(e: Event, d: Direction): bool {
    if d == Input then e.input else e.output
  }

  function Part(s: (Service, Service), d: Direction): Service {
    if d == Input then s.0 else s.1
  }

  /** Exactly the service that the event can still reach is called; if there is none, nobody is. */
  ghost predicate TurnOk(t: Turn, e: Event, d: Direction, start: map<int, (Service, Service)>, ops: seq<Op>) {
    if !Asked(e, d) then t.outcome == NotAsked
    else
      && e.fd in start && t.at <= |ops|
      && var service := Part(Live(start[e.fd], e.fd, ops[..t.at]), d);
         t.outcome == if service == 0 then Gone else Called(e.fd, service)
  }

  /** The turns follow each other, and users do something only in those in which one of them is called;
      `now` is how much they have done after the last. */
  ghost predicate InTime(turns: seq<Turn>, now: nat) {
    && (forall t :: 0 < t < |turns| ==> Follows(turns[t - 1], turns[t].at))
    && if turns == [] then now == 0 else turns[0].at == 0 && Follows(turns[|turns| - 1], now)
  }

  ghost predicate Follows(t: Turn, now: nat) {
    t.at <= now && (!t.outcome.Called? ==> t.at == now)
  }

  /** The turns of the events, the output before the input. */
  ghost predicate TurnsOk(turns: seq<Turn>, events: seq<Event>, start: map<int, (Service, Service)>, ops: seq<Op>) {
    && |turns| <= 2 * |events| && InTime(turns, |ops|)
    && (forall t :: 0 <= t < |turns| ==> TurnOk(turns[t], events[t / 2], TurnOf(t), start, ops))
  }

  function TurnOf(t: int): Direction {
    if t % 2 == 0 then Output else Input
  }

  /** What resolve_notify_return says of the callback of an event for one direction. */
  type Reply = (nat, Direction) -> bool

  /** The first `n` turns went well: every callback made in them was resolved. */
  ghost predicate WentWell(turns: seq<Turn>, n: nat, reply: Reply) {
    forall t :: 0 <= t < n && t < |turns| && turns[t].outcome.Called? ==> reply(t / 2, TurnOf(t))
  }

  /** A callback that is not resolved is the last. */
  ghost predicate EndedWell(turns: seq<Turn>, ok: bool, reply: Reply) {
    if ok then WentWell(turns, |turns|, reply)
    else
      && turns != [] && turns[|turns| - 1].outcome.Called? && WentWell(turns, |turns| - 1, reply)
      && !reply((|turns| - 1) / 2, TurnOf(|turns| - 1))
  }

  /** What zmq_poller_wait_all may report: what it was told to watch for. */
  predicate Reportable(events: seq<Event>, poller: map<int, Watch>) {
    forall i :: 0 <= i < |events| ==>
      var e := events[i];
      && e.fd in poller && e.entry == poller[e.fd].entry
      && (e.input ==> poller[e.fd].input) && (e.output ==> poller[e.fd].output)
  }

  /** A used entry is watched for exactly the services it has, under its own descriptor. */
  ghost predicate Watched(e: Entry, poller: map<int, Watch>)
    reads e`fd, e`input, e`output
  {
    && e.fd >= 0 && (e.input != 0 || e.output != 0)
    && e.fd in poller && poller[e.fd] == Watch(e, e.input != 0, e.output != 0)
  }

  /** The entry of an event, `fd` being the descriptor the event is for: it still stands for that
      descriptor, or it has been removed and has no services. */
  ghost predicate Current(e: Entry, fd: int, used: List, removed: List, poller: map<int, Watch>,
                          live: map<int, (Service, Service)>)
    reads e`home, e`fd, e`input, e`output
  {
    && Known(e, fd, live)
    && ((e.home == removed && Silent(e)) || (e.home == used && e.fd == fd && Watched(e, poller)))
  }

  /** Its services are those that the event can reach. */
  ghost predicate Known(e: Entry, fd: int, live: map<int, (Service, Service)>)
    reads e`input, e`output
  {
    fd in live && live[fd] == (e.input, e.output)
  }

  /** What waiting events can reach after one more step. */
  function After(live: map<int, (Service, Service)>, op: Op): map<int, (Service, Service)> {
    map fd | fd in live :: Step(live[fd], fd, op)
  }

  ghost predicate Replayed(live: map<int, (Service, Service)>, start: map<int, (Service, Service)>, ops: seq<Op>) {
    live.Keys == start.Keys && forall fd :: fd in start ==> live[fd] == Live(start[fd], fd, ops)
  }

  lemma ReplayedMore(live: map<int, (Service, Service)>, start: map<int, (Service, Service)>, ops: seq<Op>, op: Op)
    requires Replayed(live, start, ops)
    ensures Replayed(After(live, op), start, ops + [op])
  {
    assert (ops + [op])[..|ops|] == ops;
  }

  class Registry {
    const used: List
    const unused: List
    const removed: List
    var count: nat
    var poller: map<int, Watch>
    ghost var made: nat                 // how many entries have ever been made
    ghost var all: set<Entry>           // and which
    ghost var polled: seq<Entry>        // the entries of the events of the current poll
    ghost var fds: seq<int>             // and the descriptors they are for
    ghost var start: map<int, (Service, Service)>   // the services registered when it began
    ghost var ops: seq<Op>              // what users have done since
    ghost var live: map<int, (Service, Service)>    // and what the events can reach after that

    /** Three lists, with nothing in common, that hold every entry but `held` ones. */
    ghost predicate Lists(held: nat)
      reads this`count, this`made, used, unused, removed
      reads used.items`next, used.items`prev, used.items`home, unused.items`next, unused.items`prev, unused.items`home
      reads removed.items`next, removed.items`prev, removed.items`home
    {
      && used != unused && used != removed && unused != removed
      && used.Valid() && unused.Valid() && removed.Valid()
      && count == |used.items| && made == |used.items| + |unused.items| + |removed.items| + held
    }

    /** The poller watches the entries `s`, each descriptor once; removed entries have no services. */
    ghost predicate Entries(s: seq<Entry>)
      reads this`poller, s`fd, s`input, s`output
      reads removed`items, removed.items`fd, removed.items`input, removed.items`output
    {
      && (forall i :: 0 <= i < |s| ==> Watched(s[i], poller))
      && Keyed(s) && AllSilent()
    }

    ghost predicate Keyed(s: seq<Entry>)
      reads this`poller, s`fd
    {
      forall fd :: fd in poller ==> poller[fd].entry in s && poller[fd].entry.fd == fd
    }

    ghost predicate AllSilent()
      reads removed`items, removed.items`fd, removed.items`input, removed.items`output
    {
      forall i :: 0 <= i < |removed.items| ==> Silent(removed.items[i])
    }

    ghost predicate Events()
      reads this`polled, this`fds, this`live, this`poller, polled`home, polled`fd, polled`input, polled`output
    {
      |fds| == |polled| && forall i :: 0 <= i < |polled| ==> Current(polled[i], fds[i], used, removed, poller, live)
    }

    ghost predicate Valid()
      reads this, used, unused, removed, used.items, unused.items, removed.items, polled
    {
      Lists(0) && Rest()
    }

    /** What is besides the lists. */
    ghost predicate Rest()
      reads this`poller, used`items, used.items`fd, used.items`input, used.items`output
      reads removed`items, removed.items`fd, removed.items`input, removed.items`output
      reads this`polled, this`fds, this`live, polled`home, polled`fd, polled`input, polled`output
    {
      Entries(used.items) && Events()
    }

    /** The same, while one entry is held that is on no list. */
    ghost predicate Holding(e: Entry)
      reads this, used, unused, removed, used.items, unused.items, removed.items, polled, e
    {
      Lists(1) && Rest() && e.home == null
    }

    constructor ()
      ensures Valid() && Owned() && fresh(used) && fresh(unused) && fresh(removed)
      ensures poller == map[] && made == 0 && all == {}
      ensures used.items == unused.items == removed.items == []
    {
      used := new List();
      unused := new List();
      removed := new List();
      count, poller, made, all, polled, fds := 0, map[], 0, {}, [], [];
      start, ops, live := map[], [], map[];
    }

    ghost predicate Owned()
      reads this`all, used`items, unused`items, removed`items
    {
      && (forall i :: 0 <= i < |used.items| ==> used.items[i] in all)
      && (forall i :: 0 <= i < |unused.items| ==> unused.items[i] in all)
      && (forall i :: 0 <= i < |removed.items| ==> removed.items[i] in all)
    }

    /** ZMQ_empty. */
    predicate Empty()
      requires Valid()
      reads this, used, unused, removed, used.items, unused.items, removed.items, polled
      ensures Empty() <==> poller.Keys == {}
    {
      assert count > 0 ==> used.items[0].fd in poller;
      assert count == 0 ==> used.items == [] && forall fd: int :: fd !in poller.Keys;
      assert (forall fd: int :: fd !in poller.Keys) ==> poller.Keys == {};
      count == 0
    }

    /** find_entry_by_fd. */
    method Find(fd: int) returns (entry: Entry?, ghost k: nat)
      requires Valid()
      ensures entry == null <==> fd !in poller
      ensures entry != null ==> k < |used.items| && used.items[k] == entry && entry == poller[fd].entry
                                && entry.fd == fd
    {
      entry := used.head;
      k := if entry == null then 0 else |used.items| - 1;
      while entry != null && entry.fd != fd
        invariant entry != null ==> k < |used.items| && used.items[k] == entry
        invariant forall i :: (if entry == null then 0 else k + 1) <= i < |used.items| ==> used.items[i].fd != fd
        decreases if entry == null then 0 else k + 1
      {
        entry := entry.next;
        k := if k == 0 then 0 else k - 1;
      }
      if entry != null {
        assert Watched(entry, poller);
      }
    }

    /** allocate_new_entries, given whether there is memory. */
    method Allocate(memory: bool) returns (ok: bool)
      requires Valid() && unused.head == null
      modifies this`made, unused
      ensures Valid() && ok == memory && |unused.items| == if ok then 16 else 0
      ensures forall i :: 0 <= i < |unused.items| ==> fresh(unused.items[i])
    {
      ok := memory;
      if !ok {
        return;
      }
      var n := 0;
      while n < ALLOCATION_BLOCK
        invariant n <= ALLOCATION_BLOCK && Valid() && |unused.items| == n
        invariant forall i :: 0 <= i < |unused.items| ==> fresh(unused.items[i])
      {
        AddUnused();
        n := n + 1;
      }
    }

    method AddUnused()
      requires Valid()
      modifies this`made, unused, unused.items`prev
      ensures Valid() && unused.head != null && fresh(unused.head) && unused.items == old(unused.items) + [unused.head]
    {
      var e := new Entry();
      AddToList(e);
    }

    method AddToList(e: Entry)
      requires Lists(0) && e.home == null
      modifies this`made, unused, unused.items`prev, e`next, e`prev, e`home
      ensures Lists(0) && unused.items == old(unused.items) + [e] && unused.head == e
    {
      PushOne(unused, e, used, removed);
      made := made + 1;
    }

    // ----- adding

    /** list_pop of an unused entry. */
    method TakeUnused() returns (entry: Entry)
      requires Valid() && unused.head != null
      modifies unused, unused.items`next, unused.items`prev, unused.items`home
      ensures Holding(entry) && entry == old(unused.head) && unused.items + [entry] == old(unused.items)
    {
      entry := unused.head;
      RemoveOne(unused, entry, |unused.items| - 1, used, removed);
    }

    /** The entry joins the used ones. */
    method Join(entry: Entry)
      requires Holding(entry)
      modifies this`count, used, used.items`prev, entry`next, entry`prev, entry`home
      ensures Lists(0) && Events() && entry.home == used
      ensures used.items == old(used.items) + [entry] && Entries(old(used.items))
    {
      JoinList(entry);
    }

    method JoinList(entry: Entry)
      requires Lists(1) && entry.home == null
      modifies this`count, used, used.items`prev, entry`next, entry`prev, entry`home
      ensures Lists(0) && entry.home == used && used.items == old(used.items) + [entry]
    {
      PushOne(used, entry, unused, removed);
      count := count + 1;
    }

    /** zmq_poller_add_fd for the last entry that joined. */
    method WatchNew(entry: Entry, ghost others: seq<Entry>)
      requires Lists(0) && Events() && Entries(others) && used.items == others + [entry]
      requires entry.fd >= 0 && entry.fd !in poller && (entry.input != 0 || entry.output != 0)
      modifies this`poller
      ensures Valid() && poller == old(poller)[entry.fd := Watch(entry, entry.input != 0, entry.output != 0)]
    {
      poller := poller[entry.fd := Watch(entry, entry.input != 0, entry.output != 0)];
      assert entry in used.items;
    }

    ghost predicate Apart(e: Entry)
      reads this`polled, used`items, removed`items
    {
      && (forall i :: 0 <= i < |used.items| ==> used.items[i] != e)
      && (forall i :: 0 <= i < |removed.items| ==> removed.items[i] != e)
      && (forall i :: 0 <= i < |polled| ==> polled[i] != e)
    }

    lemma HeldIsApart(e: Entry)
      requires Holding(e)
      ensures Apart(e)
    {
    }

    method AddNew(d: Direction, fd: int, service: Service)
      requires Valid() && unused.head != null && fd >= 0 && fd !in poller && service != 0
      modifies this`count, this`poller, this`live, used, unused, unused.items`next, unused.items`prev, unused.items`home
      modifies used.items`prev, unused.head`input, unused.head`output, unused.head`fd
      ensures Valid() && fd in poller && poller == old(poller)[fd := poller[fd]]
              && used.items == old(used.items) + [poller[fd].entry]
      ensures unused.items + [poller[fd].entry] == old(unused.items) && live == After(old(live), Op(d, fd, service))
      ensures ServiceOf(poller[fd].entry, d) == service && ServiceOf(poller[fd].entry, Other(d)) == 0
      ensures forall i :: 0 <= i < |polled| ==> polled[i] != poller[fd].entry
    {
      hide After, Registry.Rest;
      var entry := TakeFor(d, fd, service);
      Enter(entry);
    }

    /** An unused entry, for `fd`. */
    method TakeFor(d: Direction, fd: int, service: Service) returns (entry: Entry)
      requires Valid() && unused.head != null && fd !in poller && service != 0
      modifies this`live, unused, unused.items`next, unused.items`prev, unused.items`home
      modifies unused.head`input, unused.head`output, unused.head`fd
      ensures Holding(entry) && Apart(entry) && entry == old(unused.head) && unused.items + [entry] == old(unused.items)
      ensures entry.fd == fd && ServiceOf(entry, d) == service && ServiceOf(entry, Other(d)) == 0
      ensures live == After(old(live), Op(d, fd, service))
    {
      hide After, Registry.Lists, Registry.Rest;
      entry := TakeUnused();
      HeldIsApart(entry);
      FillIn(entry, fd, d, service);
    }

    /** The entry joins the used ones and is watched. */
    method Enter(entry: Entry)
      requires Holding(entry) && entry.fd >= 0 && entry.fd !in poller && (entry.input != 0 || entry.output != 0)
      modifies this`count, this`poller, used, used.items`prev, entry`next, entry`prev, entry`home
      ensures Valid() && used.items == old(used.items) + [entry]
      ensures poller == old(poller)[entry.fd := Watch(entry, entry.input != 0, entry.output != 0)]
    {
      ghost var others := used.items;
      Join(entry);
      WatchNew(entry, others);
    }

    /** The entry that was taken is set to zero, but for its descriptor and its service. Events that wait
        for the descriptor wait for entries that were removed. */
    method FillIn(entry: Entry, fd: int, d: Direction, service: Service)
      requires Rest() && Apart(entry) && service != 0 && fd !in poller
      modifies this`live, entry`input, entry`output, entry`fd
      ensures Rest() && entry.fd == fd && ServiceOf(entry, d) == service && ServiceOf(entry, Other(d)) == 0
      ensures live == After(old(live), Op(d, fd, service))
    {
      entry.fd := fd;
      entry.input, entry.output := if d == Input then service else 0, if d == Output then service else 0;
      live := After(live, Op(d, fd, service));
    }

    /** All is well, but for what the poller knows of the used entry `e`. */
    ghost predicate RestBut(e: Entry)
      reads this, used, used.items, removed, removed.items, polled, e
    {
      && e in used.items && e.fd in poller && poller[e.fd].entry == e && e.fd >= 0
      && Keyed(used.items) && AllSilent() && OthersWatched(e) && EventsBut(e)
    }

    ghost predicate OthersWatched(e: Entry)
      reads this, used, used.items
    {
      forall i :: 0 <= i < |used.items| && used.items[i] != e ==> Watched(used.items[i], poller)
    }

    ghost predicate EventsBut(e: Entry)
      reads this, polled, e
    {
      && |fds| == |polled|
      && (forall i :: 0 <= i < |polled| && polled[i] != e ==> Current(polled[i], fds[i], used, removed, poller, live))
      && (forall i :: 0 <= i < |polled| && polled[i] == e ==> e.fd == fds[i] && Known(e, fds[i], live))
    }

    lemma IsUsed(fd: int, entry: Entry)
      requires Valid() && fd in poller && entry == poller[fd].entry
      ensures RestBut(entry) && Watched(entry, poller) && entry.fd == fd && entry.home == used
      ensures forall i :: 0 <= i < |removed.items| ==> removed.items[i] != entry
    {
      var k :| 0 <= k < |used.items| && used.items[k] == entry;
      assert Watched(used.items[k], poller);
    }

    method SetService(d: Direction, entry: Entry, service: Service)
      requires RestBut(entry) && entry.home == used && Watched(entry, poller)
      requires forall i :: 0 <= i < |removed.items| ==> removed.items[i] != entry
      modifies this`live, entry`input, entry`output
      ensures RestBut(entry) && live == After(old(live), Op(d, entry.fd, service))
      ensures ServiceOf(entry, d) == service && ServiceOf(entry, Other(d)) == old(ServiceOf(entry, Other(d)))
    {
      entry.input := if d == Input then service else entry.input;
      entry.output := if d == Output then service else entry.output;
      live := After(live, Op(d, entry.fd, service));
    }

    /** zmq_poller_modify_fd. */
    method Rewatch(entry: Entry)
      requires RestBut(entry) && entry.home == used && (entry.input != 0 || entry.output != 0)
      modifies this`poller
      ensures Rest() && poller == old(poller)[entry.fd := Watch(entry, entry.input != 0, entry.output != 0)]
    {
      poller := poller[entry.fd := Watch(entry, entry.input != 0, entry.output != 0)];
    }

    /** The other direction of a descriptor that is used for one already. */
    method AddToExisting(d: Direction, fd: int, entry: Entry, service: Service)
      requires Valid() && fd in poller && entry == poller[fd].entry && service != 0
      modifies this`poller, this`live, entry`input, entry`output
      ensures Valid() && poller == old(poller)[fd := Watch(entry, entry.input != 0, entry.output != 0)]
      ensures ServiceOf(entry, d) == service && ServiceOf(entry, Other(d)) == old(ServiceOf(entry, Other(d)))
      ensures live == After(old(live), Op(d, fd, service))
    {
      hide After, Registry.Lists, Registry.Rest, Registry.RestBut;
      IsUsed(fd, entry);
      SetService(d, entry, service);
      Rewatch(entry);
    }

    // ----- removing

    /** All is well, but for the entry `e` of the used ones `s`, which nobody watches any more. */
    ghost predicate RestWithout(e: Entry, s: seq<Entry>)
      reads this, used, s, removed, removed.items, polled, e
    {
      && AllSilent() && Silent(e) && |fds| == |polled|
      && (forall i :: 0 <= i < |s| && s[i] != e ==> Watched(s[i], poller))
      && (forall fd :: fd in poller ==> poller[fd].entry in s && poller[fd].entry != e && poller[fd].entry.fd == fd)
      && (forall i :: 0 <= i < |polled| && polled[i] != e ==> Current(polled[i], fds[i], used, removed, poller, live))
      && (forall i :: 0 <= i < |polled| && polled[i] == e ==> Known(e, fds[i], live))
    }

    /** zmq_poller_remove_fd, and the first lines of remove_entry. */
    method Unwatch(entry: Entry)
      requires RestBut(entry) && entry.home == used && entry.input == 0 && entry.output == 0
      requires forall i :: 0 <= i < |removed.items| ==> removed.items[i] != entry
      modifies this`poller, entry`fd
      ensures RestWithout(entry, used.items) && poller == old(poller) - {old(entry.fd)}
    {
      poller := poller - {entry.fd};
      entry.fd := -1;
    }

    /** The rest of remove_entry: the entry leaves the used ones. */
    method Leave(entry: Entry, ghost k: nat)
      requires Lists(0) && k < |used.items| && used.items[k] == entry
      modifies this`count, used, used.items`next, used.items`prev, entry`home
      ensures Lists(1) && entry.home == null && used.items == old(used.items)[..k] + old(used.items)[k + 1..]
    {
      RemoveOne(used, entry, k, unused, removed);
      count := count - 1;
    }

    lemma HasLeft(entry: Entry, s: seq<Entry>, k: nat)
      requires RestWithout(entry, s) && k < |s| && s[k] == entry && Distinct(s) && used.items == s[..k] + s[k + 1..]
      ensures Leaving(entry, removed.items)
    {
      forall fd | fd in poller ensures poller[fd].entry in used.items {
        StillIn(poller[fd].entry, s, k);
      }
      forall i | 0 <= i < |used.items| ensures Watched(used.items[i], poller) {
        assert used.items[i] == s[if i < k then i else i + 1];
      }
    }

    /** All is well, but for the entry `e`; the removed ones without it are `r`. */
    ghost predicate Leaving(e: Entry, r: seq<Entry>)
      reads this, used, used.items, removed, r, polled, e
    {
      && (forall i :: 0 <= i < |used.items| ==> Watched(used.items[i], poller)) && Keyed(used.items)
      && (forall i :: 0 <= i < |r| ==> Silent(r[i])) && Silent(e) && |fds| == |polled|
      && (forall i :: 0 <= i < |polled| && polled[i] != e ==> Current(polled[i], fds[i], used, removed, poller, live))
      && (forall i :: 0 <= i < |polled| && polled[i] == e ==> Known(e, fds[i], live))
    }

    method LeaveFrom(entry: Entry, ghost k: nat)
      requires Lists(0) && RestWithout(entry, used.items) && k < |used.items| && used.items[k] == entry
      modifies this`count, used, used.items`next, used.items`prev, entry`home
      ensures Lists(1) && Leaving(entry, removed.items) && entry.home == null
      ensures used.items == old(used.items)[..k] + old(used.items)[k + 1..]
    {
      ghost var s := used.items;
      Leave(entry, k);
      HasLeft(entry, s, k);
    }

    /** And joins the removed ones. */
    method Retire(entry: Entry)
      requires Lists(1) && Leaving(entry, removed.items) && entry.home == null
      modifies removed, entry`next, entry`prev, entry`home, removed.items`prev
      ensures Valid() && removed.items == old(removed.items) + [entry] && entry.home == removed
    {
      ghost var s := removed.items;
      PushOne(removed, entry, used, unused);
      HasRetired(entry, s);
    }

    lemma HasRetired(entry: Entry, s: seq<Entry>)
      requires Leaving(entry, s) && removed.items == s + [entry] && entry.home == removed
      ensures Rest()
    {
      forall i | 0 <= i < |removed.items| ensures Silent(removed.items[i]) {
        assert i < |s| ==> removed.items[i] == s[i];
      }
    }

    /** Both services of an entry are gone. */
    method RemoveEntry(entry: Entry, ghost k: nat)
      requires Lists(0) && RestWithout(entry, used.items) && k < |used.items| && used.items[k] == entry
      modifies this`count, used, removed, used.items`next, used.items`prev, entry`home, removed.items`prev
      ensures Valid() && removed.items == old(removed.items) + [entry] && entry.home == removed
      ensures used.items == old(used.items)[..k] + old(used.items)[k + 1..]
    {
      LeaveFrom(entry, k);
      Retire(entry);
    }

    method LastGone(entry: Entry, ghost k: nat)
      requires Lists(0) && RestBut(entry) && entry.home == used && entry.input == 0 && entry.output == 0 && Owned()
      requires forall i :: 0 <= i < |removed.items| ==> removed.items[i] != entry
      requires k < |used.items| && used.items[k] == entry
      modifies this`count, this`poller, used, removed, used.items`next, used.items`prev, entry`home, entry`fd,
               removed.items`prev
      ensures Valid() && Owned() && removed.items == old(removed.items) + [entry]
              && poller == old(poller) - {old(entry.fd)}
    {
      Unwatch(entry);
      RemoveOwned(entry, k);
    }

    method RemoveOwned(entry: Entry, ghost k: nat)
      requires Lists(0) && RestWithout(entry, used.items) && k < |used.items| && used.items[k] == entry && Owned()
      modifies this`count, used, removed, used.items`next, used.items`prev, entry`home, removed.items`prev
      ensures Valid() && Owned() && removed.items == old(removed.items) + [entry]
    {
      ghost var u, r := used.items, removed.items;
      RemoveEntry(entry, k);
      OwnedStill(u, r, k);
    }

    lemma OwnedStill(u: seq<Entry>, r: seq<Entry>, k: nat)
      requires k < |u| && forall i :: 0 <= i < |u| ==> u[i] in all
      requires forall i :: 0 <= i < |r| ==> r[i] in all
      requires forall i :: 0 <= i < |unused.items| ==> unused.items[i] in all
      requires used.items == u[..k] + u[k + 1..] && removed.items == r + [u[k]]
      ensures Owned()
    {
      forall i | 0 <= i < |used.items| ensures used.items[i] in all {
        assert used.items[i] == u[if i < k then i else i + 1];
      }
    }

    method TakeService(d: Direction, fd: int, entry: Entry)
      requires Valid() && Owned() && fd in poller && entry == poller[fd].entry
      modifies this`live, entry`input, entry`output
      ensures Lists(0) && Owned() && RestBut(entry) && entry.home == used && entry.fd == fd
      ensures forall i :: 0 <= i < |removed.items| ==> removed.items[i] != entry
      ensures ServiceOf(entry, d) == 0 && ServiceOf(entry, Other(d)) == old(ServiceOf(entry, Other(d)))
      ensures live == After(old(live), Op(d, fd, 0))
    {
      IsUsed(fd, entry);
      SetService(d, entry, 0);
    }

    /** The service of one direction is taken off a used entry. */
    method RemoveService(d: Direction, fd: int, entry: Entry, ghost k: nat)
      requires Valid() && Owned() && fd in poller && entry == poller[fd].entry && k < |used.items|
               && used.items[k] == entry
      modifies this`count, this`poller, this`live, used, removed, used.items`next, used.items`prev, entry`home, entry`fd
      modifies removed.items`prev, entry`input, entry`output
      ensures Valid() && Owned() && live == After(old(live), Op(d, fd, 0))
      ensures poller == if old(ServiceOf(entry, Other(d))) != 0 then
                          old(poller)[fd := Watch(entry, d == Output, d == Input)]
                        else old(poller) - {fd}
      ensures ServiceOf(entry, Other(d)) == old(ServiceOf(entry, Other(d)))
    {
      hide After, Registry.Lists, Registry.Rest, Registry.RestBut, Registry.Owned;
      TakeService(d, fd, entry);
      if entry.input != 0 || entry.output != 0 {
        Rewatch(entry);
      } else {
        LastGone(entry, k);
      }
    }

    // ----- the functions of the back-end

    ghost predicate Ready()
      reads this, used, unused, removed, used.items, unused.items, removed.items, polled
    {
      Valid() && Owned() && Replayed(live, start, ops)
    }

    /** What they all keep: no entry comes from elsewhere, and the events of a poll stay what they are. */
    twostate predicate Steady()
      reads this
    {
      polled == old(polled) && fds == old(fds) && start == old(start) && old(ops) <= ops && OnlyNew(old(all), all)
    }

    /** All other descriptors keep their services. */
    twostate predicate OthersKeep(fd: int)
      reads this`poller
      reads set f | f in poller :: poller[f].entry
    {
      forall f :: f in poller && f != fd ==>
        && f in old(poller) && poller[f].entry == old(poller[f].entry)
        && poller[f].entry.input == old(poller[f].entry.input) && poller[f].entry.output == old(poller[f].entry.output)
    }

    /** No event waits for the entry of `fd`. */
    ghost predicate Unasked(fd: int)
      requires fd in poller
      reads this`poller, this`polled
    {
      forall i :: 0 <= i < |polled| ==> polled[i] != poller[fd].entry
    }

    /** `fd` has got a service for one direction; the other stays, if it was registered already, and else no
        event waits for its entry. */
    twostate predicate Registered(d: Direction, fd: int, service: Service)
      reads this`poller, this`polled
      reads set f | f in poller :: poller[f].entry
    {
      && fd >= 0 && service != 0 && fd in poller && poller == old(poller)[fd := poller[fd]]
      && ServiceOf(poller[fd].entry, d) == service
      && if fd in old(poller) then
           && poller[fd].entry == old(poller[fd].entry) && old(ServiceOf(poller[fd].entry, d)) == 0
           && ServiceOf(poller[fd].entry, Other(d)) == old(ServiceOf(poller[fd].entry, Other(d)))
         else ServiceOf(poller[fd].entry, Other(d)) == 0 && Unasked(fd)
    }

    /** ZMQ_add_input and ZMQ_add_output, given whether there is memory if a new entry is to be made. */
    method Add(d: Direction, fd: int, service: Service, memory: bool) returns (ok: bool)
      requires Ready()
      modifies this, used, unused, removed, all
      ensures Ready() && Steady() && OthersKeep(fd)
      ensures ops == old(ops) + if ok then [Op(d, fd, service)] else []
      ensures if ok then Registered(d, fd, service) else poller == old(poller)
      ensures ok <==> fd >= 0 && service != 0
                      && if fd in old(poller) then old(ServiceOf(poller[fd].entry, d)) == 0
                         else old(unused.items) != [] || memory
    {
      ok := Register(d, fd, service, memory);
      if ok {
        Log(Op(d, fd, service), old(live));
      }
    }

    ghost method Log(op: Op, before: map<int, (Service, Service)>)
      requires Valid() && Owned() && Replayed(before, start, ops) && live == After(before, op)
      modifies this`ops
      ensures Ready() && ops == old(ops) + [op]
    {
      ReplayedMore(before, start, ops, op);
      ops := ops + [op];
    }

    method Register(d: Direction, fd: int, service: Service, memory: bool) returns (ok: bool)
      requires Valid() && Owned()
      modifies this`made, this`all, this`count, this`poller, this`live, used, unused, removed, all
      ensures Valid() && Owned() && OnlyNew(old(all), all) && OthersKeep(fd)
      ensures live == if ok then After(old(live), Op(d, fd, service)) else old(live)
      ensures if ok then Registered(d, fd, service) else poller == old(poller)
      ensures ok <==> fd >= 0 && service != 0
                      && if fd in old(poller) then old(ServiceOf(poller[fd].entry, d)) == 0
                         else old(unused.items) != [] || memory
    {
      if fd < 0 || service == 0 {
        return false;
      }
      var entry, k := Find(fd);
      if entry == null {
        ok := AddFirst(d, fd, service, memory);
      } else if ServiceOf(entry, d) != 0 || ServiceOf(entry, Other(d)) == 0 {
        ok := false;
      } else {
        AddSecond(d, fd, entry, service);
        ok := true;
      }
    }

    method AddSecond(d: Direction, fd: int, entry: Entry, service: Service)
      requires Valid() && Owned() && fd in poller && entry == poller[fd].entry && service != 0
               && ServiceOf(entry, d) == 0
      modifies this`poller, this`live, entry`input, entry`output
      ensures Valid() && Owned() && OthersKeep(fd) && Registered(d, fd, service)
      ensures live == After(old(live), Op(d, fd, service))
    {
      assert Watched(entry, poller);
      AddToExisting(d, fd, entry, service);
    }

    /** A service of `fd` is gone; the other stays, and with it the entry. */
    twostate predicate Unregistered(d: Direction, fd: int)
      reads this`poller
      reads set f | f in poller :: poller[f].entry
    {
      && fd in old(poller) && old(ServiceOf(poller[fd].entry, d)) != 0
      && poller == (if old(ServiceOf(poller[fd].entry, Other(d))) != 0
                    then old(poller)[fd := Watch(old(poller[fd].entry), d == Output, d == Input)]
                    else old(poller) - {fd})
      && (fd in poller ==> ServiceOf(poller[fd].entry, Other(d)) == old(ServiceOf(poller[fd].entry, Other(d))))
    }

    /** ZMQ_remove_input and ZMQ_remove_output. */
    method Remove(d: Direction, fd: int) returns (ok: bool)
      requires Ready()
      modifies this, used, unused, removed, all
      ensures Ready() && Steady() && OthersKeep(fd)
      ensures ops == old(ops) + if ok then [Op(d, fd, 0)] else []
      ensures ok <==> fd in old(poller) && old(ServiceOf(poller[fd].entry, d)) != 0
      ensures if ok then Unregistered(d, fd) else poller == old(poller)
    {
      ok := Unregister(d, fd);
      if ok {
        Log(Op(d, fd, 0), old(live));
      }
    }

    method Unregister(d: Direction, fd: int) returns (ok: bool)
      requires Valid() && Owned()
      modifies this`count, this`poller, this`live, used, removed, all
      ensures Valid() && Owned() && OthersKeep(fd)
      ensures live == if ok then After(old(live), Op(d, fd, 0)) else old(live)
      ensures ok <==> fd in old(poller) && old(ServiceOf(poller[fd].entry, d)) != 0
      ensures if ok then Unregistered(d, fd) else poller == old(poller)
    {
      var entry, k := Find(fd);
      if fd < 0 || entry == null || ServiceOf(entry, d) == 0 {
        return false;
      }
      TakeOff(d, fd, entry, k);
      ok := true;
    }

    method TakeOff(d: Direction, fd: int, entry: Entry, ghost k: nat)
      requires Valid() && Owned() && fd in poller && entry == poller[fd].entry && k < |used.items|
               && used.items[k] == entry
      requires ServiceOf(entry, d) != 0
      modifies this`count, this`poller, this`live, used, removed, used.items, removed.items`prev
      ensures Valid() && Owned() && OthersKeep(fd) && Unregistered(d, fd) && live == After(old(live), Op(d, fd, 0))
    {
      RemoveService(d, fd, entry, k);
    }

    method AddFirst(d: Direction, fd: int, service: Service, memory: bool) returns (ok: bool)
      requires Valid() && Owned() && fd >= 0 && fd !in poller && service != 0
      modifies this`made, this`all, this`count, this`poller, this`live, used, unused, all
      ensures Valid() && Owned() && OnlyNew(old(all), all) && OthersKeep(fd)
      ensures live == if ok then After(old(live), Op(d, fd, service)) else old(live)
      ensures if ok then Registered(d, fd, service) else poller == old(poller)
      ensures ok <==> old(unused.items) != [] || memory
    {
      hide After, Registry.Rest;
      ok := MakeRoom(memory);
      if ok {
        AddOwned(d, fd, service);
      }
    }

    method MakeRoom(memory: bool) returns (ok: bool)
      requires Valid() && Owned()
      modifies this`made, this`all, unused
      ensures Valid() && Owned() && OnlyNew(old(all), all) && (ok ==> unused.head != null)
      ensures ok <==> old(unused.items) != [] || memory
      ensures forall i :: 0 <= i < |unused.items| ==> unused.items[i] in old(all) || fresh(unused.items[i])
    {
      ok := true;
      if unused.head == null {
        ok := AllocateMore(memory);
      }
    }

    method AddOwned(d: Direction, fd: int, service: Service)
      requires Valid() && Owned() && unused.head != null && fd >= 0 && fd !in poller && service != 0
      modifies this`count, this`poller, this`live, used, unused, unused.items`next, unused.items`prev, unused.items`home
      modifies used.items`prev, unused.head`input, unused.head`output, unused.head`fd
      ensures Valid() && Owned() && Registered(d, fd, service) && OthersKeep(fd)
      ensures live == After(old(live), Op(d, fd, service))
    {
      ghost var u, n := used.items, unused.items;
      AddNew(d, fd, service);
      OwnedAfter(u, n, poller[fd].entry);
    }

    lemma OwnedAfter(u: seq<Entry>, n: seq<Entry>, e: Entry)
      requires forall i :: 0 <= i < |u| ==> u[i] in all
      requires forall i :: 0 <= i < |n| ==> n[i] in all
      requires forall i :: 0 <= i < |removed.items| ==> removed.items[i] in all
      requires used.items == u + [e] && unused.items + [e] == n
      ensures Owned()
    {
      assert n[|n| - 1] == e;
      forall i | 0 <= i < |unused.items| ensures unused.items[i] in all {
        assert unused.items[i] == n[i];
      }
    }

    method AllocateMore(memory: bool) returns (ok: bool)
      requires Valid() && Owned() && unused.head == null
      modifies this`made, this`all, unused
      ensures Valid() && Owned() && OnlyNew(old(all), all) && ok == memory && (ok ==> unused.head != null)
      ensures forall i :: 0 <= i < |unused.items| ==> fresh(unused.items[i])
    {
      hide Registry.Rest;
      ok := Allocate(memory);
      all := all + set e | e in unused.items;
    }

    /** A callback that removes one service of a descriptor, for which the i-th event waits, and adds
        another. If the other direction stays, the entry stays in use, and the event goes to the new
        service, although it was reported for the old one. Else it reaches nobody, whether or not there is
        memory for the new registration. */
    method Replace(d: Direction, fd: int, service: Service, memory: bool, ghost i: nat) returns (ok: bool)
      requires Ready() && fd in poller && i < |polled| && polled[i] == poller[fd].entry
      requires service != 0 && ServiceOf(poller[fd].entry, d) != 0
      modifies this, used, unused, removed, all
      ensures Ready() && Steady()
      ensures if old(ServiceOf(poller[fd].entry, Other(d))) != 0 then ok && ServiceOf(polled[i], d) == service
              else polled[i].home == removed && ServiceOf(polled[i], d) == 0
    {
      ghost var alone := ServiceOf(poller[fd].entry, Other(d)) == 0;
      assert Current(polled[i], fds[i], used, removed, poller, live);
      ok := Remove(d, fd);
      assert alone ==> Current(polled[i], fds[i], used, removed, poller, live) && live[fds[i]] == (0, 0);
      ok := Add(d, fd, service, memory);
      assert alone ==> Current(polled[i], fds[i], used, removed, poller, live) && live[fds[i]] == (0, 0);
    }

    // ----- polling

    /** The user's code: any number of adds and removes. What is removed entirely stays removed as long as
        events wait. */
    method Callback()
      requires Ready()
      modifies this, used, unused, removed, all
      ensures Ready() && Steady()
      ensures forall i :: 0 <= i < |polled| && old(polled[i].home) == removed ==> polled[i].home == removed
    {
      var n: nat := *;
      while n > 0
        invariant Ready() && Steady()
      {
        var d: Direction, fd: int, service: Service, memory: bool := *, *, *, *;
        AddOrRemove(d, fd, service, memory);
        n := n - 1;
      }
      StayRemoved();
    }

    method AddOrRemove(d: Direction, fd: int, service: Service, memory: bool)
      requires Ready()
      modifies this, used, unused, removed, all
      ensures Ready() && Steady()
    {
      var ok;
      if service == 0 {
        ok := Remove(d, fd);
      } else {
        ok := Add(d, fd, service, memory);
      }
    }

    twostate lemma StayRemoved()
      requires old(Ready()) && Ready() && Steady()
      ensures forall i :: 0 <= i < |polled| && old(polled[i].home) == removed ==> polled[i].home == removed
    {
      forall i | 0 <= i < |polled| && old(polled[i].home) == removed ensures polled[i].home == removed {
        var fd := fds[i];
        assert old(Current(polled[i], fd, used, removed, poller, live));
        assert Current(polled[i], fd, used, removed, poller, live);
        NobodyLeft(start[fd], fd, old(ops), ops);
      }
    }

    /** reuse_removed_entries. No events may be waiting. */
    method Reuse()
      requires Ready() && polled == []
      modifies unused, removed, unused.items`prev, removed.items`next, removed.items`home
      ensures Ready() && removed.items == [] && Services() == old(Services())
    {
      hide Replayed, Current;
      if removed.head == null {
        return;
      }
      Splice(unused, removed);
      ServicesStay();
    }

    /** Services that nobody touches stay what they are. */
    twostate lemma ServicesStay()
      requires old(Entries(used.items)) && Entries(used.items) && poller == old(poller)
      requires forall fd :: fd in poller ==> poller[fd].entry.input == old(poller[fd].entry.input)
      requires forall fd :: fd in poller ==> poller[fd].entry.output == old(poller[fd].entry.output)
      ensures Services() == old(Services())
    {
      forall fd | fd in poller ensures Services()[fd] == old(Services()[fd]) {
      }
    }

    /** The i-th of the waiting events. */
    ghost predicate Waits(e: Event, i: nat)
      reads this`polled, this`fds, this`start
    {
      i < |polled| && |fds| == |polled| && polled[i] == e.entry && fds[i] == e.fd
    }

    /** One direction of an event. */
    method TakeTurn(e: Event, i: nat, d: Direction, reply: Reply) returns (ghost turn: Turn, goOn: bool)
      requires Ready() && Waits(e, i)
      modifies this, used, unused, removed, all
      ensures Ready() && Steady() && TurnOk(turn, e, d, start, old(ops)) && turn.at == |old(ops)|
              && Follows(turn, |ops|)
      ensures turn.outcome.Called? <==> Asked(e, d) && old(ServiceOf(e.entry, d)) != 0
      ensures turn.outcome.Called? ==> turn.outcome.service == old(ServiceOf(e.entry, d))
      ensures goOn <==> !turn.outcome.Called? || reply(i, d)
    {
      goOn := true;
      assert Current(polled[i], fds[i], used, removed, poller, live);
      assert ops[..|ops|] == ops;
      turn := Turn(|ops|, if Asked(e, d) then Gone else NotAsked);
      if Asked(e, d) && ServiceOf(e.entry, d) != 0 {
        turn := Turn(|ops|, Called(e.entry.fd, ServiceOf(e.entry, d)));
        Callback();
        goOn := reply(i, d);
      }
    }

    /** One of them, with those before it. */
    method NextTurn(events: seq<Event>, i: nat, d: Direction, reply: Reply, ghost turns: seq<Turn>)
      returns (ghost turns': seq<Turn>, goOn: bool)
      requires Ready() && i < |events| && Waits(events[i], i) && TurnsOk(turns, events, start, ops)
      requires |turns| / 2 == i && d == TurnOf(|turns|) && EndedWell(turns, true, reply)
      modifies this, used, unused, removed, all
      ensures Ready() && Steady() && TurnsOk(turns', events, start, ops) && |turns'| == |turns| + 1
      ensures EndedWell(turns', goOn, reply)
    {
      hide TurnOk, Registry.Ready;
      ghost var t;
      t, goOn := TakeTurn(events[i], i, d, reply);
      MoreTurns(turns, t, events, start, old(ops), ops);
      turns' := turns + [t];
    }

    /** The two turns of the i-th event. */
    method Dispatch(events: seq<Event>, i: nat, reply: Reply, ghost turns: seq<Turn>)
      returns (ghost turns': seq<Turn>, goOn: bool)
      requires Ready() && i < |events| && Waits(events[i], i) && TurnsOk(turns, events, start, ops) && |turns| == 2 * i
      requires EndedWell(turns, true, reply)
      modifies this, used, unused, removed, all
      ensures EndedWell(turns', goOn, reply)
      ensures Ready() && Steady() && TurnsOk(turns', events, start, ops) && (goOn ==> |turns'| == 2 * i + 2)
    {
      turns', goOn := NextTurn(events, i, Output, reply, turns);
      if goOn {
        turns', goOn := NextTurn(events, i, Input, reply, turns');
      }
    }

    /** The services of every descriptor. */
    ghost function Services(): map<int, (Service, Service)>
      reads this, used, used.items, removed, removed.items
      requires Entries(used.items)
    {
      map fd | fd in poller :: (poller[fd].entry.input, poller[fd].entry.output)
    }

    /** The events of the poll. */
    ghost predicate Told(events: seq<Event>)
      reads this`polled, this`fds, this`start
    {
      |polled| == |fds| == |events| && forall i :: 0 <= i < |events| ==> Waits(events[i], i)
    }

    /** The events are in, nothing has changed since. */
    ghost method Begin(events: seq<Event>)
      requires Valid() && Owned() && Reportable(events, poller)
      modifies this`polled, this`fds, this`start, this`ops, this`live
      ensures Ready() && start == old(Services()) && ops == [] && Told(events)
    {
      hide Registry.Lists;
      start, ops := Services(), [];
      Note(events);
    }

    ghost method Note(events: seq<Event>)
      requires Lists(0) && Entries(used.items) && Reportable(events, poller)
      modifies this`polled, this`fds, this`live
      ensures Valid() && live == old(Services()) && Told(events)
    {
      hide Registry.Lists;
      live := Services();
      polled := seq(|events|, i requires 0 <= i < |events| => events[i].entry);
      fds := seq(|events|, i requires 0 <= i < |events| => events[i].fd);
      forall i | 0 <= i < |events| ensures Current(polled[i], fds[i], used, removed, poller, live) {
        StandsFor(events[i].fd);
      }
    }

    lemma StandsFor(fd: int)
      requires Lists(0) && Entries(used.items) && fd in poller
      ensures var e := poller[fd].entry; e.home == used && e.fd == fd && Watched(e, poller)
    {
      var k :| 0 <= k < |used.items| && used.items[k] == poller[fd].entry;
      assert Watched(used.items[k], poller) && used.items[k].home == used;
    }

    /** The loop over the events. */
    method DispatchAll(events: seq<Event>, reply: Reply) returns (ghost turns: seq<Turn>, goOn: bool)
      requires Ready() && Told(events) && ops == []
      modifies this, used, unused, removed, all
      ensures Ready() && Steady() && TurnsOk(turns, events, start, ops) && (goOn ==> |turns| == 2 * |events|)
      ensures EndedWell(turns, goOn, reply)
    {
      turns, goOn := [], true;
      var i := 0;
      while i < |events|
        invariant i <= |events| && Ready() && Steady() && goOn
        invariant TurnsOk(turns, events, start, ops) && |turns| == 2 * i && EndedWell(turns, true, reply)
      {
        turns, goOn := Dispatch(events, i, reply, turns);
        if !goOn {
          return;
        }
        i := i + 1;
      }
    }

    /** A poll that has been told of events. */
    method PollEvents(events: seq<Event>, reply: Reply) returns (ok: bool, ghost turns: seq<Turn>)
      requires Ready() && Reportable(events, poller)
      modifies this, used, unused, removed, all
      ensures Ready() && polled == [] && OnlyNew(old(all), all) && start == old(Services())
      ensures TurnsOk(turns, events, start, ops) && (ok ==> |turns| == 2 * |events|) && EndedWell(turns, ok, reply)
    {
      Begin(events);
      turns, ok := DispatchAll(events, reply);
      Forget();
    }

    ghost method Forget()
      requires Ready()
      modifies this`polled, this`fds
      ensures Ready() && polled == []
    {
      polled, fds := [], [];
    }

    /** ZMQ_poll, given what zmq_poller_wait_all comes back with, which is events of descriptors that are
        watched or a failure, and what resolve_notify_return says of each callback. What each event does
        is exactly told by what users have added and removed until its turn: it calls the service that is
        there, and nobody once the registration it was reported for has ended, even if there is another
        one for the same descriptor. A callback that is not resolved is the last. */
    method Poll(answer: Answer, reply: Reply) returns (ok: bool, ghost turns: seq<Turn>)
      requires Ready() && polled == [] && (!answer.failed ==> Reportable(answer.events, poller))
      modifies this, used, unused, removed, all
      ensures Ready() && polled == [] && OnlyNew(old(all), all) && (answer.failed || ok ==> removed.items == [])
      ensures answer.failed ==>
                && turns == [] && ops == old(ops) && poller == old(poller) && Services() == old(Services())
                && (ok <==> answer.errno == EINTR || answer.errno == ETIMEDOUT)
      ensures !answer.failed ==>
                && start == old(Services()) && TurnsOk(turns, answer.events, start, ops)
                && |turns| <= 2 * |answer.events| && (ok ==> |turns| == 2 * |answer.events|)
                && (forall t :: 0 <= t < |turns| && turns[t].outcome.Called? ==>
                      (reply(t / 2, if t % 2 == 0 then Output else Input) <==> ok || t < |turns| - 1))
                && (!ok ==> turns != [] && turns[|turns| - 1].outcome.Called?)
    {
      hide TurnsOk, Reportable, Replayed, Live, Registry.Lists, Registry.Rest;
      Reuse();
      if answer.failed {
        return answer.errno == EINTR || answer.errno == ETIMEDOUT, [];
      }
      ok, turns := PollEvents(answer.events, reply);
      if ok {
        Reuse();
      }
    }
  }

  lemma MoreTurns(turns: seq<Turn>, t: Turn, events: seq<Event>, start: map<int, (Service, Service)>, ops: seq<Op>,
                  ops': seq<Op>)
    requires TurnsOk(turns, events, start, ops) && |turns| < 2 * |events| && ops <= ops'
    requires TurnOk(t, events[|turns| / 2], TurnOf(|turns|), start, ops) && t.at == |ops| && Follows(t, |ops'|)
    ensures TurnsOk(turns + [t], events, start, ops')
  {
    forall u | 0 <= u < |turns + [t]| ensures TurnOk((turns + [t])[u], events[u / 2], TurnOf(u), start, ops') {
      var at := (turns + [t])[u].at;
      if Asked(events[u / 2], TurnOf(u)) {
        assert ops'[..at] == ops[..at];
      }
    }
  }

  /** Once a registration has ended it stays so. */
  lemma {:induction false} NobodyLeft(s: (Service, Service), fd: int, ops: seq<Op>, ops': seq<Op>)
    requires ops <= ops' && Live(s, fd, ops) == (0, 0)
    ensures Live(s, fd, ops') == (0, 0)
    decreases |ops'|
  {
    if |ops'| > |ops| {
      NobodyLeft(s, fd, ops, ops'[..|ops'| - 1]);
    } else {
      assert ops == ops';
    }
  }

  /** And it does not matter what was done to other descriptors. */
  lemma {:induction false} OnlyOwn(s: (Service, Service), fd: int, ops: seq<Op>)
    requires forall i :: 0 <= i < |ops| ==> ops[i].fd != fd
    ensures Live(s, fd, ops) == s
  {
    if ops != [] {
      OnlyOwn(s, fd, ops[..|ops| - 1]);
    }
  }

  /** So a stale event reaches nobody: when both services of its descriptor have been removed, it is gone,
      whatever has been added for the same descriptor since. */
  lemma StaleEvent(t: Turn, e: Event, d: Direction, start: map<int, (Service, Service)>, ops: seq<Op>, k: nat)
    requires TurnOk(t, e, d, start, ops) && Asked(e, d) && k <= t.at
    requires Live(start[e.fd], e.fd, ops[..k]) == (0, 0)
    ensures t.outcome == Gone
  {
    NobodyLeft(start[e.fd], e.fd, ops[..k], ops[..t.at]);
  }

  /** And one whose descriptor was left alone reaches the service it was reported for. */
  lemma FreshEvent(t: Turn, e: Event, d: Direction, start: map<int, (Service, Service)>, ops: seq<Op>)
    requires TurnOk(t, e, d, start, ops) && Asked(e, d) && Part(start[e.fd], d) != 0
    requires forall i :: 0 <= i < t.at ==> ops[i].fd != e.fd
    ensures t.outcome == Called(e.fd, Part(start[e.fd], d))
  {
    OnlyOwn(start[e.fd], e.fd, ops[..t.at]);
  }

  /** Entries that have come in are new. */
  twostate predicate OnlyNew(before: set<Entry>, new after: set<Entry>) {
    forall e :: e in after ==> e in before || fresh(e)
  }

  lemma StillIn(e: Entry, s: seq<Entry>, k: nat)
    requires e in s && k < |s| && s[k] != e
    ensures e in s[..k] + s[k + 1..]
  {
    var i :| 0 <= i < |s| && s[i] == e;
    assert (s[..k] + s[k + 1..])[if i < k then i else i - 1] == e;
  }

  /** A removed entry. */
  ghost predicate Silent(e: Entry)
    reads e`fd, e`input, e`output
  {
    e.input == 0 && e.output == 0 && e.fd == -1
  }
}
