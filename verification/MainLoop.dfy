/** The main loop of dispatcher.c. Timer callbacks and the poll run any user code: any number of
    timers added and cancelled, and a shutdown. The clock never goes back. */
module MainLoop {
  import opened MonotonicClock
  import opened Timespec
  import opened TimerList
  import opened TimerQueue
  import opened Timers

  const INFINITE: nat := 0xFFFF_FFFF_FFFF_FFFF

  // ----- recurring timers

  /** What fell due once stays due. */
  lemma DueStays(t: Timespec, before: Timespec, after: Timespec)
    requires Near(t, before) && Near(t, after) && Normal(before) && Normal(after)
    requires Nanos(before) <= Nanos(after) && Due(t, before)
    ensures Due(t, after)
  {
    DueExactly(t, before);
    DueExactly(t, after);
  }

  /** `to` is the k-th occurrence after `from`, the following one is not due, and if occurrences
      were passed over for it, it is due itself. */
  ghost predicate Merged(from: Timespec, every: nat, to: Timespec, k: nat, now: Timespec) {
    && k >= 1
    && to == Occurrence(from, every, k)
    && !Due(Occurrence(from, every, k + 1), now)
    && (k > 1 ==> Due(to, now))
  }

  /** The loop of fdd_main that merges the missed occurrences of a recurring timer into one. It
      ends because the clock does not pass its limit. */
  method MergeOccurrences(clock: Clock, from: Timespec, every: nat) returns (to: Timespec, ghost k: nat)
    requires clock.Valid() && Within(from, clock.base) && from.sec <= clock.last.sec && 1 <= every <= clock.reach
    modifies clock
    ensures clock.Valid() && Nanos(old(clock.last)) <= Nanos(clock.last)
    ensures Merged(from, every, to, k, clock.last)
    ensures Within(to, clock.base) && Within(Occurrence(from, every, k + 1), clock.base)
  {
    hide AddMsec, MsecLeft;
    ghost var end := clock.base + clock.limit;
    ghost var limit := end * NSEC_PER_SEC + NSEC_PER_MSEC;
    NextOccurrence(from, every, 0, from);
    to, k := AddMsec(from, every), 1;
    var next := to;
    while true
      invariant clock.Valid() && Nanos(old(clock.last)) <= Nanos(clock.last)
      invariant k >= 1 && to == next == Occurrence(from, every, k)
      invariant k > 1 ==> Due(to, clock.last)
      invariant Proper(to) && clock.base <= to.sec < end + Seconds(every)
      invariant k > 1 ==> to.sec < end && Nanos(to) < limit
      decreases if k == 1 then 1 else 0, limit - Nanos(to)
    {
      NextOccurrence(from, every, k, to);
      next := AddMsec(next, every);
      ghost var before := clock.last;
      var now := clock.Read();
      if k > 1 {
        DueStays(to, before, now);
      }
      LeftSays(next, now);
      if MsecLeft(next, now) > 0 {
        return;
      }
      to, k := next, k + 1;
    }
  }

  /** One period after the k-th occurrence. */
  lemma NextOccurrence(from: Timespec, every: nat, k: nat, t: Timespec)
    requires Proper(t) && t == Occurrence(from, every, k) && every >= 1
    ensures var next := AddMsec(t, every);
            && next == Occurrence(from, every, k + 1) && Proper(next)
            && t.sec <= next.sec <= t.sec + Seconds(every) && Nanos(t) < Nanos(next)
  {
    AddMsecExact(t, every);
  }

  /** What the milliseconds left say. */
  lemma LeftSays(t: Timespec, now: Timespec)
    requires Near(t, now) && Normal(now)
    ensures MsecLeft(t, now) >= 0
    ensures MsecLeft(t, now) == 0 ==> Due(t, now) && t.sec <= now.sec
                                      && Nanos(t) < now.sec * NSEC_PER_SEC + NSEC_PER_SEC + NSEC_PER_MSEC
  {
    MsecLeftAccurate(t, now);
    DueExactly(t, now);
  }

  /** How many periods fit between the old expiry and the clock, rounded down. */
  function PeriodsPassed(from: Timespec, every: nat, now: Timespec): int
    requires every > 0
  {
    (Nanos(now) - Nanos(from)) / (every * NSEC_PER_MSEC)
  }

  /** The merge in closed form: the number of periods that have passed, one more if the occurrence
      after them is due within its last millisecond, and at least one. */
  lemma MergedCount(from: Timespec, every: nat, to: Timespec, k: nat, now: Timespec)
    requires Merged(from, every, to, k, now) && every >= 1
    requires Proper(from) && Normal(now) && Near(Occurrence(from, every, k + 1), now) && Near(to, now)
    ensures var q := PeriodsPassed(from, every, now);
            var m := if q >= 0 && Due(Occurrence(from, every, q + 1), now) then q + 1 else q;
            k == if m < 1 then 1 else m
  {
    hide Occurrence, MsecLeft;
    OccurrenceExact(from, every, k);
    OccurrenceExact(from, every, k + 1);
    DueExactly(Occurrence(from, every, k + 1), now);
    DueExactly(to, now);
    SpanStep(every, k);
    CountBounds(Nanos(now) - Nanos(from), every, k);
  }

  lemma CountBounds(d: int, every: nat, k: nat)
    requires every >= 1 && Span(every, k + 1) > d
    ensures k >= d / (every * NSEC_PER_MSEC)
    ensures Span(every, k) < d + every * NSEC_PER_MSEC ==> k <= d / (every * NSEC_PER_MSEC) + 1
  {
    var R := every * NSEC_PER_MSEC;
    var q := d / R;
    assert q * R <= d < q * R + R;
    LessFactor(q, k + 1, R);
    if k * R < d + R {
      assert q * R + R + R == (q + 2) * R;
      LessFactor(k, q + 2, R);
    }
  }

  lemma LessFactor(a: int, b: int, R: int)
    requires R > 0
    ensures a * R < b * R ==> a < b
  {
    if a >= b {
      assert (a - b) * R >= 0;
      assert (a - b) * R == a * R - b * R;
    }
  }

  // ----- the loop

  datatype Verdict = GoOn | Stop | Fail

  /** What a timer's callback comes to: it returns true and leaves no error; or it returns false and the one
      error it leaves is the bare kill-recurring error; or anything else. */
  datatype NotifyResult = Fine | KillRecurring | Failed

  /** What users call: the three functions of the dispatcher that there are. */
  datatype UserCall =
    | Add(msec: nat, recurring: nat, handle: nat, tag: int, memory: Memory)
    | Cancel(handle: nat)
    | Shutdown

  /** What a round of the loop meets: whether the back-end has nothing to poll, what users call while the
      round goes on, how the callback of a timer ends if one is fired, whether error_resolver puts up
      with it if it is asked, and what the back-end's poll returns if it is called. */
  datatype Answers = Answers(empty: bool, calls: seq<UserCall>, result: NotifyResult, resolver: bool, polled: bool)

  /** Times that users ask for are within reach of the clock. */
  predicate Fits(calls: seq<UserCall>, reach: nat) {
    forall i :: 0 <= i < |calls| && calls[i].Add? ==> calls[i].msec <= reach && calls[i].recurring <= reach
  }

  /** Why fdd_main comes to its end, if it does. */
  datatype Reason = Refused | NothingLeft | ShutDown | TimeUp | Failure | NotOver

  /** How it stands when a round begins: where the log is, which timers there are, how much time is left to
      wait, how many timers have fired since the last poll, and when that time was reckoned. */
  datatype Start = Start(at: nat, list: seq<Entry>, wait: nat, fired: nat, read: Timespec)

  /** What resolve_notify_return says of a timer's callback. Of one that recurs, the kill-recurring error has
      been dealt with before. */
  predicate Resolves(a: Answers, recurring: nat) {
    a.result == Fine || (a.result == KillRecurring && recurring > 0) || a.resolver
  }

  /** What the loop did, each with the clock as last read. */
  datatype Event =
    | Fired(timer: Timer, waiting: seq<Entry>, at: Timespec)
    | Requeued(from: Timespec, every: nat, to: Timespec, at: Timespec)
    | Polled(timeout: nat, running: seq<Entry>, at: Timespec, deadline: Deadline)

  /** When the loop is to end, and the clock as it was when the time left until then was last reckoned. */
  datatype Deadline = NoDeadline | Deadline(until: Timespec, read: Timespec)

  ghost predicate Sane(list: seq<Entry>, stamp: nat, base: nat, reach: nat) {
    && Ordered(list) && Bounded(list, stamp, base)
    && forall e :: e in list ==> e.timer.recurring <= reach
  }

  /** The timer fired was the first, and due; a timer queued again was merged; no polling while a
      timer is due, nor past the next expiry, nor past the deadline. */
  ghost predicate Good(ev: Event) {
    match ev
    case Fired(timer, waiting, at) =>
      Due(timer.expires, at) && Near(timer.expires, at) && Normal(at)
      && forall e :: e in waiting ==> Near(timer.expires, e.expires) && Compare(timer.expires, e.expires) <= 0
    case Requeued(from, every, to, at) =>
      Proper(from) && Near(to, at) && every >= 1 && Normal(at)
      && exists k: nat :: Merged(from, every, to, k, at) && Near(Occurrence(from, every, k + 1), at)
    case Polled(timeout, running, at, deadline) =>
      InTime(timeout, deadline)
      && (running != [] ==>
            Near(running[0].expires, at) && Normal(at)
            && 1 <= MsecLeft(running[0].expires, at) && timeout <= MsecLeft(running[0].expires, at))
  }

  predicate InTime(timeout: nat, deadline: Deadline) {
    deadline.Deadline? ==>
      var Deadline(until, read) := deadline;
      Near(until, read) && Normal(read) && timeout <= MsecLeft(until, read)
  }

  /** What the log says in real time: a timer fires no earlier than a millisecond before its expiry,
      and nothing waiting expires before it; a poll ends less than a millisecond after the next
      expiry, and is not entered once that has passed; if it waits at all, it ends less than a
      millisecond after the deadline; a timer queued again keeps its rhythm, and the occurrence after
      the one chosen is still to come. */
  lemma LogInRealTime(ev: Event)
    requires Good(ev)
    ensures match ev
            case Fired(timer, waiting, at) =>
              && Nanos(timer.expires) < Nanos(at) + NSEC_PER_MSEC
              && forall e :: e in waiting ==> Nanos(timer.expires) <= Nanos(e.expires)
            case Requeued(from, every, to, at) =>
              exists k: nat :: k >= 1 && Nanos(to) == Nanos(from) + Span(every, k)
                          && Nanos(from) + Span(every, k + 1) > Nanos(at)
                          && (k > 1 ==> Nanos(to) < Nanos(at) + NSEC_PER_MSEC)
            case Polled(timeout, running, at, deadline) =>
              && (running != [] ==>
                    && Nanos(running[0].expires) > Nanos(at)
                    && Nanos(at) + timeout * NSEC_PER_MSEC < Nanos(running[0].expires) + NSEC_PER_MSEC)
              && (deadline.Deadline? && timeout > 0 ==>
                    Nanos(deadline.read) + timeout * NSEC_PER_MSEC < Nanos(deadline.until) + NSEC_PER_MSEC)
  {
    match ev
    case Fired(timer, waiting, at) =>
      DueExactly(timer.expires, at);
      forall e | e in waiting ensures Nanos(timer.expires) <= Nanos(e.expires) {
        CompareFollowsRealTime(timer.expires, e.expires);
      }
    case Requeued(from, every, to, at) =>
      var k: nat :| Merged(from, every, to, k, at) && Near(Occurrence(from, every, k + 1), at);
      OccurrenceExact(from, every, k);
      OccurrenceExact(from, every, k + 1);
      DueExactly(Occurrence(from, every, k + 1), at);
      DueExactly(to, at);
    case Polled(timeout, running, at, deadline) =>
      if running != [] {
        DueExactly(running[0].expires, at);
        MsecLeftAccurate(running[0].expires, at);
      }
      if deadline.Deadline? && timeout > 0 {
        MsecLeftAccurate(deadline.until, deadline.read);
      }
  }

  /** How long the first timer of the list has left. */
  function Left(list: seq<Entry>, now: Timespec): int {
    if list == [] then INFINITE else MsecLeft(list[0].expires, now)
  }

  /** What a round does first: it fires the first timer if it is due, and polls otherwise, until the next
      expiry or, if that is earlier, until the waiting is over. The time left to the deadline is reckoned
      anew if timers have fired since the last poll. */
  ghost predicate RoundStarts(ev: Event, list: seq<Entry>, wait: nat, fired: nat, until: Timespec, read: Timespec) {
    match ev
    case Fired(timer, waiting, at) =>
      list != [] && timer == list[0].timer && waiting == list[1..] && Left(list, at) == 0
    case Polled(timeout, running, at, deadline) =>
      && running == list && Left(list, at) > 0
      && timeout == Shorter(Left(list, at), wait, deadline) && Reckons(deadline, wait, fired, until, read, at)
    case Requeued(_, _, _, _) => false
  }

  /** The time to poll: `msec`, cut to what is left to the deadline, or to the time to wait. */
  function Shorter(msec: int, wait: nat, deadline: Deadline): int {
    var left := if deadline.Deadline? then MsecLeft(deadline.until, deadline.read) else wait;
    if wait < INFINITE && msec > left then left else msec
  }

  /** Which deadline there is, and from when the time left to it is: from the last poll or the start, or
      from after `at`. */
  predicate Reckons(deadline: Deadline, wait: nat, fired: nat, until: Timespec, read: Timespec, at: Timespec) {
    if 0 < wait < INFINITE then
      && deadline.Deadline? && deadline.until == until
      && if fired == 0 then deadline.read == read else Nanos(at) <= Nanos(deadline.read)
    else deadline == NoDeadline
  }

  /** A round, from how it stands to how the next begins: first it does what RoundStarts says. After a timer
      has been fired, one that recurs is queued again, and nothing else is done; it goes on if that went
      well. After a poll, the time left is reckoned, and it goes on while there is some. */
  ghost predicate Steps(s: Start, log: seq<Event>, a: Answers, until: Timespec, verdict: Verdict, next: Start) {
    && s.at < next.at <= |log| && RoundStarts(log[s.at], s.list, s.wait, s.fired, until, s.read)
    && if log[s.at].Fired? then
         var Fired(timer, _, _) := log[s.at];
         && verdict == (if Resolves(a, timer.recurring) then GoOn else Fail)
         && next.wait == s.wait && next.fired == s.fired + 1 && next.read == s.read
         && (if timer.recurring > 0 && a.result != KillRecurring then
               && next.at == s.at + 2 && log[s.at + 1].Requeued?
               && log[s.at + 1].from == timer.expires && log[s.at + 1].every == timer.recurring
             else next.at == s.at + 1)
       else
         && next.at == s.at + 1
         && (if !a.polled then verdict == Fail
             else
               && verdict == (if next.wait == 0 then Stop else GoOn) && next.fired == 0
               && next.wait == if 0 < s.wait < INFINITE then MsecLeft(until, next.read) else s.wait)
  }

  /** What comes later does not matter to it. */
  lemma StepsStay(s: Start, log: seq<Event>, a: Answers, until: Timespec, verdict: Verdict, next: Start,
                  list: seq<Entry>, log': seq<Event>)
    requires Steps(s, log, a, until, verdict, next) && log <= log'
    ensures Steps(s, log', a, until, verdict, next.(list := list))
  {
    assert forall i :: 0 <= i < |log| ==> log'[i] == log[i];
  }

  /** The rounds done: there was a timer or something to poll before each, and nobody had asked for a
      shutdown; each went as Steps says, and all but the last ended with the verdict to go on. */
  ghost predicate History(rounds: seq<Start>, log: seq<Event>, answers: seq<Answers>, done: nat, until: Timespec,
                          verdict: Verdict) {
    && |rounds| == done + 1 && done <= |answers| && rounds[done].at == |log|
    && (forall k :: 0 <= k < done ==> rounds[k].list != [] || !answers[k].empty)
    && (forall k :: 0 <= k < done - 1 ==> Shutdown !in answers[k].calls)
    && (forall k :: 0 <= k < done ==>
          Steps(rounds[k], log, answers[k], until, if k < done - 1 then GoOn else verdict, rounds[k + 1]))
  }

  /** One more round to those that have been done. */
  ghost function MoreHistory(rounds: seq<Start>, before: seq<Event>, log: seq<Event>, answers: seq<Answers>, done: nat,
                             until: Timespec, verdict: Verdict, next: Start): (more: seq<Start>)
    requires History(rounds, before, answers, done, until, GoOn) && done < |answers| && before <= log
    requires (rounds[done].list != [] || !answers[done].empty) && (done > 0 ==> Shutdown !in answers[done - 1].calls)
    requires Steps(rounds[done], log, answers[done], until, verdict, next.(list := [])) && next.at == |log|
    ensures more == rounds + [next] && History(more, log, answers, done + 1, until, verdict)
  {
    HistoryMore(rounds, before, log, answers, done, until, verdict, next);
    rounds + [next]
  }

  lemma HistoryBegins(s: Start, log: seq<Event>, answers: seq<Answers>, until: Timespec)
    requires s.at == |log|
    ensures History([s], log, answers, 0, until, GoOn)
  {
  }

  lemma NobodyAsked(rounds: seq<Start>, log: seq<Event>, answers: seq<Answers>, done: nat, until: Timespec,
                    verdict: Verdict)
    requires History(rounds, log, answers, done, until, verdict)
    requires done > 0 ==> Shutdown !in answers[done - 1].calls
    ensures forall k :: 0 <= k < done ==> Shutdown !in answers[k].calls
  {
  }

  lemma HistoryMore(rounds: seq<Start>, before: seq<Event>, log: seq<Event>, answers: seq<Answers>, done: nat,
                    until: Timespec, verdict: Verdict, next: Start)
    requires History(rounds, before, answers, done, until, GoOn) && done < |answers| && before <= log
    requires (rounds[done].list != [] || !answers[done].empty) && (done > 0 ==> Shutdown !in answers[done - 1].calls)
    requires Steps(rounds[done], log, answers[done], until, verdict, next.(list := [])) && next.at == |log|
    ensures History(rounds + [next], log, answers, done + 1, until, verdict)
  {
    hide Steps;
    var more := rounds + [next];
    forall k | 0 <= k < done + 1
      ensures Steps(more[k], log, answers[k], until, if k < done then GoOn else verdict, more[k + 1]) {
      if k < done {
        StepsStay(rounds[k], before, answers[k], until, GoOn, rounds[k + 1], rounds[k + 1].list, log);
      } else {
        StepsStay(rounds[k], log, answers[k], until, verdict, next.(list := []), next.list, log);
      }
    }
  }

  ghost predicate GoodLog(log: seq<Event>) {
    forall ev :: ev in log ==> Good(ev)
  }

  lemma LogMore(log: seq<Event>, ev: Event)
    requires GoodLog(log) && Good(ev)
    ensures GoodLog(log + [ev])
  {
  }

  /** Every node among `after` was among `before`, or did not exist then. */
  twostate predicate OnlyNew(before: set<TimerNode>, new after: set<TimerNode>) {
    forall n :: n in after ==> n in before || fresh(n)
  }

  class MainLoop {
    const timers: Timers
    const clock: Clock
    var running: bool
    ghost var log: seq<Event>

    ghost predicate Valid()
      reads this, clock, timers, timers.pool, timers.queue, timers.pool.pool, timers.queue.active, timers.nodes
    {
      timers.Valid() && clock.Valid() && Sane(timers.List(), timers.queue.inserted, clock.base, clock.reach)
        && GoodLog(log)
    }

    constructor (base: nat, limit: nat, reach: nat, readings: seq<Timespec>)
      requires limit > 0 && Fit(limit, reach)
      ensures Valid() && log == [] && timers.held == 0 && timers.nodes == {}
      ensures fresh(timers) && fresh(clock) && fresh(timers.pool) && fresh(timers.queue)
    {
      timers := new Timers();
      clock := new Clock(base, limit, reach, readings);
      running, log := true, [];
    }

    /** fdd_add_timer_handle. */
    method AddTimer(msec: nat, recurring: nat, handle: nat, tag: int, memory: Memory) returns (ok: bool)
      requires Valid() && msec <= clock.reach && recurring <= clock.reach
      modifies this, clock, timers, timers.pool, timers.queue, timers.nodes
      ensures Valid() && timers.held == old(timers.held) && OnlyNew(old(timers.nodes), timers.nodes)
      ensures log == old(log) && running == old(running) && Nanos(old(clock.last)) <= Nanos(clock.last)
      ensures ok <==> old(timers.pool.pool) != [] || memory.block || memory.single
      ensures ok ==> clock.last == old(clock.Next())
      ensures ok ==> exists expires ::
                && Nanos(expires) == Nanos(clock.last) + msec * NSEC_PER_MSEC
                && timers.List() == Insert(old(timers.List()),
                                           Entry(Timer(expires, recurring, handle, tag), old(timers.queue.inserted)))
      ensures !ok ==> timers.List() == old(timers.List())
    {
      var now := clock.Read();
      var expires := ExpirationTime(now, msec);
      var timer := Timer(expires, recurring, handle, tag);
      ghost var list, stamp := timers.List(), timers.queue.inserted;
      ok := timers.AddTimer(timer, memory);
      if ok {
        SaneInsert(list, Entry(timer, stamp), clock.base, clock.reach);
      }
    }

    /** fdd_cancel_timer. */
    method CancelTimer(handle: nat)
      requires Valid()
      modifies timers, timers.pool, timers.queue, timers.nodes
      ensures Valid() && timers.held == old(timers.held) && timers.nodes == old(timers.nodes)
      ensures timers.List() == if handle == 0 then old(timers.List()) else Without(old(timers.List()), handle)
    {
      SaneWithout(timers.List(), handle, timers.queue.inserted, clock.base, clock.reach);
      timers.CancelTimer(handle);
    }

    /** User code, wherever the loop runs it: any timers added and cancelled, and perhaps a shutdown. Timers
        taken off the list are out of its reach. */
    method UserCode(calls: seq<UserCall>)
      requires Valid() && Fits(calls, clock.reach)
      modifies this, clock, timers, timers.pool, timers.queue, timers.nodes
      ensures Valid() && timers.held == old(timers.held) && OnlyNew(old(timers.nodes), timers.nodes)
      ensures log == old(log) && Nanos(old(clock.last)) <= Nanos(clock.last)
      ensures running == (old(running) && Shutdown !in calls)
    {
      for i := 0 to |calls|
        invariant Valid() && timers.held == old(timers.held) && OnlyNew(old(timers.nodes), timers.nodes)
        invariant log == old(log) && Nanos(old(clock.last)) <= Nanos(clock.last)
        invariant running == (old(running) && Shutdown !in calls[..i])
      {
        AnyCall(calls[i]);
      }
      assert calls[..|calls|] == calls;
    }

    method AnyCall(call: UserCall)
      requires Valid() && Fits([call], clock.reach)
      modifies this, clock, timers, timers.pool, timers.queue, timers.nodes
      ensures Valid() && timers.held == old(timers.held) && OnlyNew(old(timers.nodes), timers.nodes)
      ensures log == old(log) && Nanos(old(clock.last)) <= Nanos(clock.last)
      ensures running == (old(running) && call != Shutdown)
    {
      match call
      case Add(msec, recurring, handle, tag, memory) =>
        assert call == [call][0];
        var _ := AddTimer(msec, recurring, handle, tag, memory);
      case Cancel(handle) =>
        CancelTimer(handle);
      case Shutdown =>
        running := false;
    }

    /** Takes the first timer off the list when it is due. */
    method TakeDue() returns (tmr: TimerNode)
      requires Valid() && timers.queue.head != null && Due(timers.queue.head.timer.expires, clock.last)
      modifies this`log, timers, timers.queue, timers.nodes
      ensures Valid() && timers.held == old(timers.held) + 1 && timers.nodes == old(timers.nodes) - {tmr}
      ensures tmr in old(timers.nodes)
      ensures tmr.place == Held && tmr.timer == old(timers.List()[0].timer) && timers.List() == old(timers.List()[1..])
      ensures Within(tmr.timer.expires, clock.base) && tmr.timer.expires.sec <= clock.last.sec
              && tmr.timer.recurring <= clock.reach
      ensures log == old(log) + [Fired(tmr.timer, timers.List(), clock.last)]
    {
      ghost var before := timers.List();
      FirstFires(before, timers.queue.inserted, clock.base, clock.reach, clock.last);
      tmr := Pick();
      LogMore(log, Fired(tmr.timer, timers.List(), clock.last));
      log := log + [Fired(tmr.timer, timers.List(), clock.last)];
    }

    /** The head leaves the list. */
    method Pick() returns (tmr: TimerNode)
      requires timers.Valid() && timers.queue.head != null
      modifies timers, timers.queue, timers.nodes
      ensures timers.Valid() && timers.held == old(timers.held) + 1 && timers.nodes == old(timers.nodes) - {tmr}
      ensures tmr in old(timers.nodes) && tmr.place == Held && timers.queue.inserted == old(timers.queue.inserted)
      ensures old(timers.List()) != [] && tmr.timer == old(timers.List()[0].timer)
              && timers.List() == old(timers.List()[1..])
    {
      ghost var before := timers.List();
      assert timers.queue.head == timers.queue.active[0];
      tmr := timers.TakeFirst();
      assert before[0].timer == tmr.timer && timers.List() == before[1..];
    }

    /** When a recurring timer is to fire again. */
    method NextTime(from: Timespec, every: nat) returns (to: Timespec)
      requires Valid() && Within(from, clock.base) && from.sec <= clock.last.sec && 1 <= every <= clock.reach
      modifies clock, this`log
      ensures Valid() && Within(to, clock.base) && Nanos(old(clock.last)) <= Nanos(clock.last)
      ensures log == old(log) + [Requeued(from, every, to, clock.last)]
    {
      ghost var k;
      to, k := MergeOccurrences(clock, from, every);
      LogMore(log, Requeued(from, every, to, clock.last));
      log := log + [Requeued(from, every, to, clock.last)];
    }

    /** What becomes of a timer that fired. One that recurs is queued again even if its handle was
        cancelled in the meantime; only the kill-recurring error stops it. */
    method Finish(tmr: TimerNode, result: NotifyResult)
      requires Valid() && timers.held > 0 && tmr.place == Held
      requires Within(tmr.timer.expires, clock.base) && tmr.timer.expires.sec <= clock.last.sec
               && tmr.timer.recurring <= clock.reach
      modifies this`log, clock, timers, timers.pool, timers.queue, timers.nodes, tmr
      ensures Valid() && timers.held == old(timers.held) - 1 && timers.nodes == old(timers.nodes) + {tmr}
      ensures Nanos(old(clock.last)) <= Nanos(clock.last)
      ensures old(tmr.timer.recurring) == 0 || result == KillRecurring ==>
                log == old(log) && timers.List() == old(timers.List())
      ensures old(tmr.timer.recurring) > 0 && result != KillRecurring ==>
                exists to ::
                  && log == old(log) + [Requeued(old(tmr.timer.expires), old(tmr.timer.recurring), to, clock.last)]
                  && timers.List() == Insert(old(timers.List()),
                                             Entry(old(tmr.timer).(expires := to), old(timers.queue.inserted)))
    {
      var timer := tmr.timer;
      if timer.recurring > 0 && result != KillRecurring {
        var to := NextTime(timer.expires, timer.recurring);
        tmr.timer := timer.(expires := to);
        SaneInsert(timers.List(), Entry(tmr.timer, timers.queue.inserted), clock.base, clock.reach);
        timers.Requeue(tmr);
      } else {
        timers.Release(tmr);
      }
    }

    /** Calls back a timer that was taken off the list, and sees it to its place. */
    method Notify(tmr: TimerNode, a: Answers)
      requires Valid() && timers.held > 0 && tmr.place == Held && tmr !in timers.nodes && Fits(a.calls, clock.reach)
      requires Within(tmr.timer.expires, clock.base) && tmr.timer.expires.sec <= clock.last.sec
               && tmr.timer.recurring <= clock.reach
      modifies this, clock, timers, timers.pool, timers.queue, timers.nodes, tmr
      ensures Valid() && timers.held == old(timers.held) - 1
      ensures OnlyNew(old(timers.nodes) + {tmr}, timers.nodes)
      ensures Nanos(old(clock.last)) <= Nanos(clock.last) && running == (old(running) && Shutdown !in a.calls)
      ensures old(tmr.timer.recurring) == 0 || a.result == KillRecurring ==> log == old(log)
      ensures old(tmr.timer.recurring) > 0 && a.result != KillRecurring ==>
                exists to ::
                  log == old(log) + [Requeued(old(tmr.timer.expires), old(tmr.timer.recurring), to, clock.last)]
    {
      UserCode(a.calls);
      Finish(tmr, a.result);
    }

    /** The body of the loop for a first timer that is due. */
    method FireFirst(a: Answers) returns (resolved: bool)
      requires Valid() && timers.queue.head != null && Due(timers.queue.head.timer.expires, clock.last)
      requires Fits(a.calls, clock.reach)
      modifies this, clock, timers, timers.pool, timers.queue, timers.nodes
      ensures Valid() && timers.held == old(timers.held) && OnlyNew(old(timers.nodes), timers.nodes)
      ensures Nanos(old(clock.last)) <= Nanos(clock.last) && running == (old(running) && Shutdown !in a.calls)
      ensures resolved == Resolves(a, old(timers.List()[0].timer.recurring))
      ensures var timer := old(timers.List()[0].timer);
              var fired := old(log) + [Fired(timer, old(timers.List()[1..]), old(clock.last))];
              if timer.recurring == 0 || a.result == KillRecurring then log == fired
              else exists to :: log == fired + [Requeued(timer.expires, timer.recurring, to, clock.last)]
    {
      var tmr := TakeDue();
      var recurring := tmr.timer.recurring;
      Notify(tmr, a);
      resolved := a.result == Fine || (a.result == KillRecurring && recurring > 0) || a.resolver;
    }

    /** The back-end's poll, which runs user code too. `at` is when the first timer was looked at. */
    method Poll(timeout: nat, a: Answers, ghost at: Timespec, ghost deadline: Deadline) returns (ok: bool)
      requires Valid() && Good(Polled(timeout, timers.List(), at, deadline)) && Fits(a.calls, clock.reach)
      modifies this, clock, timers, timers.pool, timers.queue, timers.nodes
      ensures Valid() && timers.held == old(timers.held) && OnlyNew(old(timers.nodes), timers.nodes)
      ensures Nanos(old(clock.last)) <= Nanos(clock.last) && running == (old(running) && Shutdown !in a.calls)
      ensures log == old(log) + [Polled(timeout, old(timers.List()), at, deadline)] && ok == a.polled
    {
      LogMore(log, Polled(timeout, timers.List(), at, deadline));
      log := log + [Polled(timeout, timers.List(), at, deadline)];
      UserCode(a.calls);
      ok := a.polled;
    }

    method TimeLeft(t: Timespec) returns (msec: nat)
      requires clock.Valid() && Within(t, clock.base)
      modifies clock
      ensures clock.Valid() && Nanos(old(clock.last)) <= Nanos(clock.last)
      ensures clock.last == old(clock.Next()) && msec == MsecLeft(t, clock.last) < INFINITE
    {
      var now := clock.Read();
      MsecLeftAccurate(t, now);
      msec := MsecLeft(t, now);
    }

    /** How long the first timer has left: infinitely long if there is none. */
    method FirstLeft() returns (msec: nat)
      requires Valid()
      modifies clock
      ensures Valid() && Nanos(old(clock.last)) <= Nanos(clock.last)
      ensures msec == Left(timers.List(), clock.last)
      ensures clock.last == if timers.List() == [] then old(clock.last) else old(clock.Next())
      ensures timers.queue.head != null <==> timers.List() != []
      ensures timers.queue.head != null ==> timers.List()[0].timer == timers.queue.head.timer
      ensures msec > 0 ==>
                forall timeout: nat, deadline :: timeout <= msec && InTime(timeout, deadline) ==>
                  Good(Polled(timeout, timers.List(), clock.last, deadline))
    {
      msec := INFINITE;
      if timers.queue.head != null {
        assert timers.queue.active[0] == timers.queue.head && timers.List()[0] in timers.List();
        msec := TimeLeft(timers.queue.head.timer.expires);
      }
    }

    /** `wait` is the time left to the deadline when the clock was read then, if there is one. */
    ghost predicate Counted(wait: nat, until: Timespec, read: Timespec)
      reads clock
    {
      0 < wait < INFINITE ==>
        && Within(until, clock.base) && Within(read, clock.base) && Normal(read) && Nanos(read) <= Nanos(clock.last)
        && wait == MsecLeft(until, read)
    }

    /** How long to poll, if the first timer has `msec` left: no longer than there is time until the
        deadline. */
    method Timeout(msec: nat, wait: nat, fired: nat, until: Timespec, ghost read: Timespec)
      returns (wait': nat, timeout: nat, ghost deadline: Deadline)
      requires clock.Valid() && Counted(wait, until, read)
      modifies clock
      ensures clock.Valid() && Nanos(old(clock.last)) <= Nanos(clock.last)
      ensures timeout == Shorter(msec, wait, deadline) && InTime(timeout, deadline)
      ensures Reckons(deadline, wait, fired, until, read, old(clock.last))
      ensures deadline.Deadline? && fired > 0 ==> deadline.read == clock.last
      ensures if deadline.Deadline? then
                wait' == MsecLeft(until, deadline.read) && wait' < INFINITE && Counted(wait', until, deadline.read)
                && (wait' == 0 ==> Within(until, clock.base) && Due(until, clock.last))
              else wait' == wait
    {
      wait', timeout := wait, msec;
      deadline := if 0 < wait < INFINITE then Deadline(until, read) else NoDeadline;
      if wait < INFINITE {
        if fired > 0 && wait > 0 {
          wait' := TimeLeft(until);
          deadline := Deadline(until, clock.last);
        }
        if timeout > wait' {
          timeout := wait';
        }
      }
    }

    /** What is left of the time to wait after a poll. */
    method CountDown(wait: nat, until: Timespec) returns (wait': nat)
      requires clock.Valid() && (0 < wait < INFINITE ==> Within(until, clock.base))
      modifies clock
      ensures clock.Valid() && Nanos(old(clock.last)) <= Nanos(clock.last)
      ensures if 0 < wait < INFINITE then wait' == MsecLeft(until, clock.last)
              else wait' == wait && clock.last == old(clock.last)
    {
      wait' := wait;
      if 0 < wait' < INFINITE {
        wait' := TimeLeft(until);
      }
    }

    /** The rest of a round in which no timer is due, if the first one has `msec` left. */
    method PollRound(msec: nat, a: Answers, wait: nat, fired: nat, until: Timespec, ghost read: Timespec)
      returns (verdict: Verdict, wait': nat, timeout: nat, ghost deadline: Deadline)
      requires Valid() && Fits(a.calls, clock.reach) && Counted(wait, until, read)
               && msec == Left(timers.List(), clock.last) && msec > 0
      requires forall t: nat, d :: t <= msec && InTime(t, d) ==> Good(Polled(t, timers.List(), clock.last, d))
      modifies this, clock, timers, timers.pool, timers.queue, timers.nodes
      ensures Valid() && timers.held == old(timers.held) && OnlyNew(old(timers.nodes), timers.nodes)
      ensures log == old(log) + [Polled(timeout, old(timers.List()), old(clock.last), deadline)]
      ensures timeout == Shorter(msec, wait, deadline)
      ensures Reckons(deadline, wait, fired, until, read, old(clock.last))
      ensures running == (old(running) && Shutdown !in a.calls)
      ensures wait == 0 || wait >= INFINITE ==> wait' == wait
      ensures a.polled && 0 < wait < INFINITE ==> wait' == MsecLeft(until, clock.last)
      ensures verdict == if !a.polled then Fail else if wait' == 0 then Stop else GoOn
      ensures verdict != Fail ==> Counted(wait', until, clock.last)
      ensures verdict == Stop ==> wait == 0 || Due(until, clock.last)
    {
      hide MsecLeft;
      ghost var at := clock.last;
      wait', timeout, deadline := Timeout(msec, wait, fired, until, read);
      ghost var before := clock.last;
      var ok := Poll(timeout, a, at, deadline);
      if !ok {
        return Fail, wait', timeout, deadline;
      }
      if wait > 0 && wait' == 0 {
        DueStays(until, before, clock.last);
      }
      wait' := CountDown(wait', until);
      verdict := if wait' == 0 then Stop else GoOn;
    }

    /** One round of the loop in fdd_main: fires the first timer if it is due, else polls.
        `until` is the deadline `wait` counts down to, unless `wait` is 0 or infinite. */
    method Round(a: Answers, wait: nat, fired: nat, until: Timespec, ghost read: Timespec)
      returns (verdict: Verdict, wait': nat, fired': nat, ghost read': Timespec)
      requires Valid() && Fits(a.calls, clock.reach) && Counted(wait, until, read)
      modifies this, clock, timers, timers.pool, timers.queue, timers.nodes
      ensures Valid() && timers.held == old(timers.held) && OnlyNew(old(timers.nodes), timers.nodes)
      ensures old(log) < log && running == (old(running) && Shutdown !in a.calls)
      ensures Steps(Start(old(|log|), old(timers.List()), wait, fired, read), log, a, until, verdict,
                    Start(|log|, [], wait', fired', read'))
      ensures log[old(|log|)].at == if old(timers.List()) == [] then old(clock.last) else old(clock.Next())
      ensures verdict != Fail ==> Counted(wait', until, read')
      ensures (wait > 0 && verdict == GoOn ==> wait' > 0) && (wait == 0 ==> wait' == 0)
      ensures wait == INFINITE ==> wait' == INFINITE && verdict != Stop
      ensures verdict == Stop ==> wait == 0 || Due(until, clock.last)
    {
      var msec := FirstLeft();
      if msec == 0 {
        var resolved := FireFirst(a);
        return if resolved then GoOn else Fail, wait, fired + 1, read;
      }
      var timeout;
      ghost var deadline;
      verdict, wait', timeout, deadline := PollRound(msec, a, wait, fired, until, read);
      fired', read' := if verdict == Fail then fired else 0, clock.last;
    }

    /** fdd_main, given whether no error is counted when it is called and its context fits on the stack, what
        each round meets, and whether the context can be popped in the end. It ends when there is nothing
        left to do, when a user has asked for it, when less than a millisecond is left of its limit, or
        when something fails; else it does all the rounds. */
    method Run(limit: nat, clean: bool, answers: seq<Answers>, popped: bool)
      returns (ok: bool, reason: Reason, done: nat, ghost rounds: seq<Start>, ghost deadline: Timespec)
      requires Valid() && (limit <= clock.reach || limit == INFINITE)
      requires forall k :: 0 <= k < |answers| ==> Fits(answers[k].calls, clock.reach)
      modifies this, clock, timers, timers.pool, timers.queue, timers.nodes
      ensures Valid() && timers.held == old(timers.held) && old(log) <= log
      ensures ok <==> popped && (reason == NothingLeft || reason == ShutDown || reason == TimeUp)
      ensures reason == Refused <==> !clean
      ensures reason == Refused ==> done == 0 && log == old(log) && timers.List() == old(timers.List())
      ensures reason != Refused ==>
                && History(rounds, log, answers, done, deadline,
                           if reason == Failure then Fail else if reason == TimeUp then Stop else GoOn)
                && rounds[0] == Start(old(|log|), old(timers.List()), limit, 0, rounds[0].read)
                && rounds[done].list == timers.List()
      ensures reason != Refused && 0 < limit < INFINITE ==>
                && rounds[0].read == old(clock.Next())
                && Nanos(deadline) == Nanos(old(clock.Next())) + limit * NSEC_PER_MSEC
      ensures reason == NothingLeft ==> timers.List() == [] && done < |answers| && answers[done].empty
      ensures reason == NothingLeft || reason == NotOver ==>
                forall k :: 0 <= k < done ==> Shutdown !in answers[k].calls
      ensures reason == ShutDown ==> !running && done > 0 && Shutdown in answers[done - 1].calls
      ensures reason == TimeUp ==>
                && limit < INFINITE && done > 0
                && (limit == 0 || Nanos(old(clock.last)) + limit * NSEC_PER_MSEC < Nanos(clock.last) + NSEC_PER_MSEC)
      ensures reason == Failure ==> done > 0
      ensures reason == NotOver ==> done == |answers|
    {
      assert limit <= INFINITE;
      hide MsecLeft, Seconds, Steps, MainLoop.Valid;
      if !clean {
        return false, Refused, 0, [], clock.last;
      }
      var until, read := Begin(limit);
      reason, done, rounds := Loop(limit, answers, until, read);
      deadline := until;
      ok := (reason == NothingLeft || reason == ShutDown || reason == TimeUp) && popped;
      if reason == TimeUp && limit > 0 {
        DueExactly(until, clock.last);
      }
    }

    /** The deadline, if there is one; and the loop is to run. */
    method Begin(limit: nat) returns (until: Timespec, ghost read: Timespec)
      requires Valid() && (limit <= clock.reach || limit == INFINITE)
      modifies clock, this`running
      ensures Valid() && running && Counted(limit, until, read)
      ensures 0 < limit < INFINITE ==>
                && read == clock.last == old(clock.Next()) && Within(until, clock.base) && Normal(until)
                && Nanos(until) == Nanos(read) + limit * NSEC_PER_MSEC
      ensures Nanos(old(clock.last)) <= Nanos(clock.last)
    {
      hide MsecLeft;
      until := Timespec(0, 0);
      read := clock.last;
      if 0 < limit < INFINITE {
        var now := clock.Read();
        until := ExpirationTime(now, limit);
        read := now;
        LeftAtFirst(until, now, limit);
      }
      running := true;
    }

    /** The loop itself. */
    method Loop(limit: nat, answers: seq<Answers>, until: Timespec, ghost read: Timespec)
      returns (reason: Reason, done: nat, ghost rounds: seq<Start>)
      requires Valid() && running && Counted(limit, until, read) && limit <= INFINITE
      requires forall k :: 0 <= k < |answers| ==> Fits(answers[k].calls, clock.reach)
      modifies this, clock, timers, timers.pool, timers.queue, timers.nodes
      ensures Valid() && timers.held == old(timers.held) && old(log) <= log && reason != Refused
      ensures History(rounds, log, answers, done, until,
                      if reason == Failure then Fail else if reason == TimeUp then Stop else GoOn)
      ensures rounds[0] == Start(old(|log|), old(timers.List()), limit, 0, read) && rounds[done].list == timers.List()
      ensures reason == NothingLeft ==> timers.List() == [] && done < |answers| && answers[done].empty
      ensures reason == NothingLeft || reason == NotOver ==>
                forall k :: 0 <= k < done ==> Shutdown !in answers[k].calls
      ensures reason == ShutDown ==> !running && done > 0 && Shutdown in answers[done - 1].calls
      ensures reason == TimeUp ==> limit < INFINITE && done > 0
                                   && (limit > 0 ==> Near(until, clock.last) && Normal(clock.last)
                                                     && Due(until, clock.last))
      ensures reason == Failure ==> done > 0
      ensures reason == NotOver ==> done == |answers|
    {
      hide MsecLeft, Seconds, Sane, GoodLog, History, Steps;
      var wait, fired, verdict := limit, 0, GoOn;
      ghost var reckoned := read;
      done, reason := 0, NotOver;
      rounds := [Start(|log|, timers.List(), wait, fired, reckoned)];
      HistoryBegins(rounds[0], log, answers, until);
      while done < |answers| && running && verdict == GoOn
        invariant Valid() && timers.held == old(timers.held) && OnlyNew(old(timers.nodes), timers.nodes)
        invariant old(log) <= log && reason == NotOver
        invariant |rounds| == done + 1 && done <= |answers| && History(rounds, log, answers, done, until, verdict)
        invariant rounds[0] == Start(old(|log|), old(timers.List()), limit, 0, read)
        invariant rounds[done] == Start(|log|, timers.List(), wait, fired, reckoned) && (verdict != GoOn ==> done > 0)
        invariant running == (done > 0 ==> Shutdown !in answers[done - 1].calls)
        invariant verdict == GoOn ==> Counted(wait, until, reckoned)
        invariant (limit > 0 && verdict == GoOn ==> wait > 0) && (limit == 0 ==> wait == 0)
                  && (limit == INFINITE ==> wait == INFINITE && verdict != Stop)
        invariant verdict == Stop && limit > 0 ==> Due(until, clock.last)
      {
        if timers.queue.head == null && answers[done].empty {
          reason := NothingLeft;
          break;
        }
        ghost var before := log;
        verdict, wait, fired, reckoned := Round(answers[done], wait, fired, until, reckoned);
        rounds := MoreHistory(rounds, before, log, answers, done, until, verdict,
                              Start(|log|, timers.List(), wait, fired, reckoned));
        done := done + 1;
      }
      if verdict != GoOn {
        reason := if verdict == Fail then Failure else TimeUp;
      } else if !running {
        reason := ShutDown;
      } else {
        NobodyAsked(rounds, log, answers, done, until, verdict);
      }
    }
  }

  /** The first timer fires rightly if it is due. */
  lemma FirstFires(list: seq<Entry>, stamp: nat, base: nat, reach: nat, now: Timespec)
    requires Sane(list, stamp, base, reach) && list != [] && Due(list[0].expires, now) && Normal(now)
             && Within(now, base)
    ensures Good(Fired(list[0].timer, list[1..], now)) && Sane(list[1..], stamp, base, reach)
    ensures Within(list[0].expires, base) && list[0].expires.sec <= now.sec && list[0].timer.recurring <= reach
  {
    assert list[0] in list;
    FirstPrecedes(list, stamp, base, reach);
    SaneTail(list, stamp, base, reach);
    DueExactly(list[0].expires, now);
  }

  lemma FirstPrecedes(list: seq<Entry>, stamp: nat, base: nat, reach: nat)
    requires Sane(list, stamp, base, reach) && list != []
    ensures forall e :: e in list[1..] ==> Near(list[0].expires, e.expires) && Compare(list[0].expires, e.expires) <= 0
  {
    forall e | e in list[1..] ensures Near(list[0].expires, e.expires) && Compare(list[0].expires, e.expires) <= 0 {
      var i :| 1 <= i < |list| && list[i] == e;
      assert Before(list[0], list[i]);
      CompareFollowsRealTime(list[0].expires, e.expires);
    }
  }

  lemma SaneTail(list: seq<Entry>, stamp: nat, base: nat, reach: nat)
    requires Sane(list, stamp, base, reach) && list != []
    ensures Sane(list[1..], stamp, base, reach)
  {
  }

  lemma SaneInsert(list: seq<Entry>, e: Entry, base: nat, reach: nat)
    requires Sane(list, e.stamp, base, reach) && Within(e.expires, base) && e.timer.recurring <= reach
    ensures Sane(Insert(list, e), e.stamp + 1, base, reach)
  {
    InsertOrdered(list, e, base);
    InsertMembers(list, e);
    forall x | x in Insert(list, e) ensures x == e || x in list {
      assert x in multiset(Insert(list, e));
    }
  }

  lemma SaneWithout(list: seq<Entry>, handle: nat, stamp: nat, base: nat, reach: nat)
    requires Sane(list, stamp, base, reach)
    ensures Sane(Without(list, handle), stamp, base, reach)
  {
    WithoutOrdered(list, handle, stamp, base);
    WithoutMembers(list, handle);
    forall x | x in Without(list, handle) ensures x in list {
      assert x in multiset(Without(list, handle));
      assert x in multiset(list);
    }
  }
}
