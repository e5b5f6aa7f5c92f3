/** The task queue of task_queue.c: tasks are launched one at a time, with a pause between the end of one
    and the start of the next. A task's handler runs in the last step of the call that launches it, so
    what it calls comes after that call. */
module TaskQueue {
  import opened MonotonicClock
  import opened TaskPool
  import opened Timespec

  /** A task was started: with which id, and at what reading of the clock. */
  datatype Launch = Launch(id: nat, handler: Handler, at: int)

  ghost predicate Linked(first: Task?, last: Task?, s: seq<Task>)
    reads s
  {
    && first == (if s == [] then null else s[0])
    && last == (if s == [] then null else s[|s| - 1])
    && (forall i {:trigger s[i].next} :: 0 <= i < |s| ==> s[i].next == if i + 1 < |s| then s[i + 1] else null)
  }

  class Queue {
    var first: Task?
    var last: Task?
    var nextId: nat
    var nextRun: Timespec
    const interval: nat
    ghost var tasks: seq<Task>
    var timers: nat                     // launch timers that the dispatcher has
    var expiry: Timespec                // when the last of them expires
    ghost var inFlight: bool            // whether the client has been given an id it has not completed
    ghost var added: seq<Handler>       // all tasks ever added
    ghost var completed: nat            // completions ever accepted
    ghost var ends: seq<int>            // and the reading of the clock at each
    ghost var launched: seq<Launch>     // all launches

    ghost predicate Valid()
      reads this, tasks
    {
      Holds() && Within(nextRun, 0)
    }

    /** The list has the tasks that were added and not completed, and the id is that of the last launch. */
    ghost predicate Holds()
      reads `first, `last, `tasks, `added, `completed, `nextId, `launched, tasks
    {
      && Linked(first, last, tasks) && |added| == completed + |tasks|
      && (forall i :: 0 <= i < |tasks| ==> tasks[i].number == completed + i && !tasks[i].pooled
                                           && tasks[i].handler == added[completed + i])
      && nextId == |launched|
    }

    /** When the i-th task may start: right away, or when the pause after the one before it is over. */
    ghost function AllowedAt(i: nat): int
      requires i <= |ends|
      reads this
    {
      if i == 0 then 0 else ends[i - 1] + interval * NSEC_PER_MSEC
    }

    /** One task is in flight, or one timer is armed, exactly if there are tasks; the n-th task added is
        the n-th launched, with the id n; each is started later than 2 ms before it is allowed to. */
    ghost predicate Sound()
      reads this
    {
      && (if inFlight then 1 else 0) + timers == (if tasks == [] then 0 else 1)
      && |launched| == completed + (if inFlight then 1 else 0)
      && |ends| == completed && Nanos(nextRun) == AllowedAt(completed)
      && (timers > 0 ==> Within(expiry, 0) && Nanos(expiry) > Nanos(nextRun) - NSEC_PER_MSEC)
      && Ordered()
    }

    ghost predicate Ordered()
      reads this
    {
      && |launched| <= |added| && |launched| <= |ends| + 1
      && forall i :: 0 <= i < |launched| ==> launched[i].id == i + 1 && launched[i].handler == added[i]
                                             && launched[i].at > AllowedAt(i) - 2 * NSEC_PER_MSEC
    }

    /** fdu_new_task_queue. */
    constructor (interval: nat)
      ensures Valid() && Sound() && this.interval == interval
      ensures tasks == [] && added == [] && launched == [] && completed == 0 && ends == []
    {
      first, last, nextId, nextRun := null, null, 0, Timespec(0, 0);
      this.interval := interval;
      timers, expiry := 0, Timespec(0, 0);
      tasks, inFlight, added, completed, ends, launched := [], false, [], 0, [], [];
    }

    /** launch_next_task, at a reading of the clock. */
    method LaunchNext(ghost now: Timespec)
      requires Valid() && first != null
      modifies this`nextId, this`launched, this`inFlight
      ensures Valid() && inFlight && launched == old(launched) + [Launch(nextId, first.handler, Nanos(now))]
      ensures nextId == |launched|
    {
      nextId := nextId + 1;
      launched := launched + [Launch(nextId, first.handler, Nanos(now))];
      inFlight := true;
    }

    /** If the pause is over, the first task is launched; else a launch timer is armed, for as long as is
        left of the pause, to less than 1 ms. */
    twostate predicate SetUp(now: Timespec, armed: Timespec)
      requires old(first) != null
      reads this
    {
      if Due(nextRun, now) then
        timers == old(timers) &&
        inFlight && |launched| == old(|launched|) + 1 && launched == old(launched) + [launched[|launched| - 1]]
        && launched[|launched| - 1] == Launch(old(nextId) + 1, old(first.handler), Nanos(now))
        && Nanos(now) > Nanos(nextRun) - NSEC_PER_MSEC
      else
        timers == old(timers) + 1 && inFlight == old(inFlight) && launched == old(launched)
        && Within(expiry, 0) && Nanos(expiry) > Nanos(nextRun) - NSEC_PER_MSEC
        && var error := (Nanos(expiry) - Nanos(armed)) - (Nanos(nextRun) - Nanos(now));
           -1_000_000 < error < 1_000_000
    }

    /** The next run time was reckoned from a reading of the clock. */
    ghost predicate Reckoned(clock: Clock)
      reads this, clock
    {
      && clock.Valid() && Fit(clock.base + clock.limit, clock.reach) && interval <= clock.reach
      && Nanos(nextRun) <= Nanos(clock.last) + interval * NSEC_PER_MSEC
    }

    /** fdd_add_timer_handle, with launch_next_task to be called. */
    method Arm(msec: nat, clock: Clock)
      requires clock.Valid() && Fit(clock.base + clock.limit, clock.reach) && msec <= clock.reach
      modifies this`timers, this`expiry, clock
      ensures clock.Valid() && Still(clock) && Nanos(old(clock.last)) <= Nanos(clock.last)
      ensures timers == old(timers) + 1 && Within(expiry, 0)
              && Nanos(expiry) == Nanos(clock.last) + msec * NSEC_PER_MSEC
    {
      timers := timers + 1;
      var now := clock.Read();
      expiry := ArmTimer(now, msec, clock.base + clock.limit, clock.reach);
    }

    /** setup_next_task_launch, of a queue that is not empty. */
    method SetupNextLaunch(clock: Clock) returns (now: Timespec)
      requires Valid() && Reckoned(clock) && first != null
      modifies this`nextId, this`launched, this`inFlight, this`timers, this`expiry, clock
      ensures Valid() && Reckoned(clock) && SetUp(now, clock.last) && now == old(clock.Next()) && Still(clock)
    {
      var reading := clock.Read();
      now := reading;
      LeftUntil(nextRun, reading, interval);
      var msec := MsecLeft(nextRun, reading);
      if msec > 0 {
        Arm(msec, clock);
      } else {
        LaunchNext(reading);
      }
    }

    /** A task comes to the end of the list. */
    method Append(task: Task, handler: Handler)
      requires Valid() && !task.pooled && task.next == null && (forall i :: 0 <= i < |tasks| ==> tasks[i] != task)
      modifies this`first, this`last, this`tasks, this`added, task, last
      ensures Valid() && tasks == old(tasks) + [task] && added == old(added) + [handler] && last == task
    {
      task.handler, task.number := handler, |added|;
      if first == null {
        first, last := task, task;
      } else {
        last.next := task;
        last := task;
      }
      tasks, added := tasks + [task], added + [handler];
    }

    /** The first task leaves the list. */
    method TakeFirst() returns (task: Task)
      requires Valid() && first != null
      modifies this`first, this`last, this`tasks, this`completed
      ensures Valid() && [task] + tasks == old(tasks) && completed == old(completed) + 1 && !task.pooled
      ensures forall i :: 0 <= i < |tasks| ==> tasks[i] != task
    {
      task := first;
      first := first.next;
      if first == null {
        last := null;
      }
      tasks, completed := tasks[1..], completed + 1;
    }

    /** The queue when its first task is waiting for its launch to be set up. */
    ghost predicate Waiting()
      reads this
    {
      && tasks != [] && !inFlight && timers == 0 && |launched| == completed == |ends| && Ordered()
      && Nanos(nextRun) == AllowedAt(completed)
    }

    /** What is set up for the first task: the queue is sound then if no timer was armed for it already. */
    method SetUpNext(clock: Clock)
      requires Valid() && Reckoned(clock) && first != null && !inFlight
               && (Waiting() || (timers == 1 && completed == |launched| + 1))
      modifies this`nextId, this`launched, this`inFlight, this`timers, this`expiry, clock
      ensures Valid() && Reckoned(clock) && (Sound() <==> old(Waiting())) && Still(clock)
      ensures !Due(nextRun, old(clock.Next())) ==> timers == old(timers) + 1 && !inFlight && launched == old(launched)
    {
      assert first.handler == added[completed];
      var now := SetupNextLaunch(clock);
    }

    /** fdu_add_task, given whether there is memory if the pool is empty. It fails only without a handler, or
        for want of memory. No node is lost. */
    method AddTask(handler: Handler, memory: bool, pool: Pool, clock: Clock) returns (ok: bool)
      requires Valid() && Sound() && Reckoned(clock) && pool.Valid()
      modifies this, pool, pool.head, last, clock
      ensures Valid() && Sound() && Reckoned(clock) && pool.Valid()
      ensures ok <==> handler != 0 && (old(pool.items) != [] || memory)
      ensures added == old(added) + (if ok then [handler] else []) && completed == old(completed)
      ensures pool.made - |pool.items| - |tasks| == old(pool.made - |pool.items| - |tasks|)
      ensures if ok then last != null && tasks == old(tasks) + [last] else tasks == old(tasks)
      ensures if old(pool.items) == [] then
                (ok ==> fresh(last)) && forall i :: 0 <= i < |pool.items| ==> fresh(pool.items[i])
              else pool.items + (if ok then [last] else []) == old(pool.items)
    {
      if handler == 0 {
        return false;
      }
      var task := pool.Obtain(memory);
      if task == null {
        return false;
      }
      ok := true;
      Enqueue(task, handler, clock);
    }

    method Enqueue(task: Task, handler: Handler, clock: Clock)
      requires Valid() && Sound() && Reckoned(clock)
      requires !task.pooled && task.next == null && (forall i :: 0 <= i < |tasks| ==> tasks[i] != task)
      modifies this, task, last, clock
      ensures Valid() && Sound() && Reckoned(clock)
      ensures added == old(added) + [handler] && completed == old(completed) && tasks == old(tasks) + [task]
              && last == task
    {
      var wasEmpty := first == null;
      Append(task, handler);
      if wasEmpty {
        SetUpNext(clock);
      }
    }

    /** The first task leaves the list, and its node goes back to the pool. */
    method DropFirst(pool: Pool)
      requires Valid() && pool.Valid() && first != null
      modifies this`first, this`last, this`tasks, this`completed, pool`head, pool`items, first
      ensures Valid() && pool.Valid() && completed == old(completed) + 1
      ensures tasks == old(tasks)[1..] && pool.items == old(pool.items) + [old(tasks)[0]]
    {
      var task := TakeFirst();
      pool.Misplace(task);
    }

    /** The next run time is set. */
    method Pause(clock: Clock)
      requires Valid() && clock.Valid() && Fit(clock.base + clock.limit, clock.reach) && interval <= clock.reach
      modifies this`inFlight, this`nextRun, this`ends, clock
      ensures Valid() && Reckoned(clock) && Still(clock) && !inFlight && ends == old(ends) + [Nanos(clock.last)]
      ensures Nanos(nextRun) == Nanos(clock.last) + interval * NSEC_PER_MSEC
      ensures interval > 0 ==> !Due(nextRun, clock.last)
    {
      hide Due, Seconds, Queue.Holds;
      inFlight := false;
      var now := clock.Read();
      ends := ends + [Nanos(now)];
      nextRun := ArmTimer(now, interval, clock.base + clock.limit, clock.reach);
      if interval > 0 {
        PauseGoesOn(nextRun, now, interval);
      }
    }

    /** Whether the clock stands still, so that the pause goes on, and another task waits for its end. */
    twostate predicate Paused(clock: Clock)
      reads this, clock
    {
      old(clock.coming) == [] && interval > 0 && |old(tasks)| > 1
    }

    /** fdu_complete_task, from where it has accepted the id. */
    method Accept(pool: Pool, clock: Clock)
      requires Valid() && Sound() && Reckoned(clock) && pool.Valid() && first != null
      modifies this, pool`head, pool`items, first, clock
      ensures Valid() && Reckoned(clock) && pool.Valid() && added == old(added) && completed == old(completed) + 1
      ensures tasks == old(tasks)[1..] && pool.items == old(pool.items) + [old(tasks)[0]]
      ensures Sound() <==> old(inFlight)
      ensures |old(tasks)| == 1 ==> first == null && timers == old(timers) && launched == old(launched)
      ensures Still(clock) && (Paused(clock) ==> timers == old(timers) + 1 && !inFlight && launched == old(launched))
    {
      hide Queue.Ordered;
      EndFirst(pool, clock);
      GoOn(clock);
    }

    /** The first task has ended. */
    method EndFirst(pool: Pool, clock: Clock)
      requires Valid() && Sound() && Reckoned(clock) && pool.Valid() && first != null
      modifies this`first, this`last, this`tasks, this`completed, this`inFlight, this`nextRun, this`ends
      modifies pool`head, pool`items, first, clock
      ensures Valid() && Reckoned(clock) && pool.Valid() && completed == old(completed) + 1 && !inFlight
      ensures tasks == old(tasks)[1..] && pool.items == old(pool.items) + [old(tasks)[0]]
      ensures Ordered() && |ends| == completed && Nanos(nextRun) == AllowedAt(completed)
      ensures Still(clock) && (interval > 0 ==> !Due(nextRun, clock.last))
    {
      DropFirst(pool);
      Pause(clock);
    }

    /** What comes after a task that has ended. */
    method GoOn(clock: Clock)
      requires Valid() && Reckoned(clock) && !inFlight && Ordered() && |ends| == completed
               && Nanos(nextRun) == AllowedAt(completed)
      requires (timers == 0 && |launched| == completed) || (timers == 1 && completed == |launched| + 1)
      modifies this`nextId, this`launched, this`inFlight, this`timers, this`expiry, clock
      ensures Valid() && Reckoned(clock) && (Sound() <==> old(timers) == 0) && Still(clock)
      ensures first != null && !Due(nextRun, old(clock.Next())) ==>
                timers == old(timers) + 1 && !inFlight && launched == old(launched)
      ensures first == null ==> timers == old(timers) && launched == old(launched)
    {
      if first != null {
        SetUpNext(clock);
      }
    }

    /** fdu_complete_task. An id is accepted if it is the last one given and there are tasks. The queue
        stays sound if and only if the task with this id was still in flight. */
    method CompleteTask(id: nat, pool: Pool, clock: Clock) returns (ok: bool)
      requires Valid() && Sound() && Reckoned(clock) && pool.Valid()
      modifies this, pool`head, pool`items, first, clock
      ensures Valid() && Reckoned(clock) && pool.Valid() && added == old(added)
      ensures ok == (id == old(nextId) && old(tasks) != [])
      ensures completed == old(completed) + if ok then 1 else 0
      ensures tasks == (if ok then old(tasks)[1..] else old(tasks))
      ensures pool.items == old(pool.items) + if ok then [old(tasks)[0]] else []
      ensures Sound() <==> !(ok && !old(inFlight))
      ensures ok && |old(tasks)| == 1 ==> first == null && timers == old(timers) && launched == old(launched)
      ensures ok && Paused(clock) ==> timers == old(timers) + 1 && !inFlight && launched == old(launched)
      ensures Still(clock)
    {
      ok := id == nextId && first != null;
      if ok {
        Accept(pool, clock);
      }
    }

    /** What a second completion of the same id does. One task is in flight and another comes after it; the
        first is completed, and before the pause is over, the first is completed again. Then the second is
        lost, and the timer that was to launch it will find an empty queue. */
    method CompleteTwice(pool: Pool, clock: Clock)
      requires Valid() && Sound() && Reckoned(clock) && pool.Valid() && inFlight && |tasks| == 2
      requires clock.coming == [] && interval > 0
      modifies this, pool`head, pool`items, tasks, clock
      ensures timers == 1 && first == null && |launched| < |added| == completed && !Sound()
    {
      var id := nextId;
      var ok := CompleteTask(id, pool, clock);
      ok := CompleteTask(id, pool, clock);
    }

    /** The dispatcher runs launch_next_task, because a launch timer is due at its last reading. */
    method TimerFires(clock: Clock)
      requires Valid() && Sound() && Reckoned(clock) && timers > 0 && Due(expiry, clock.last)
      modifies this`nextId, this`launched, this`inFlight, this`timers
      ensures Valid() && Sound() && Reckoned(clock) && inFlight && |launched| == old(|launched|) + 1
    {
      hide Due, Queue.Ordered, Queue.Holds;
      LaunchInTime(expiry, nextRun, clock.last);
      NextHandler();
      timers := timers - 1;
      LaunchNext(clock.last);
      OneMore();
    }

    lemma NextHandler()
      requires Holds() && tasks != []
      ensures completed < |added| && first != null && first.handler == added[completed] && nextId == |launched|
    {
      assert first == tasks[0];
    }

    /** One more launch in order. */
    twostate lemma OneMore()
      requires old(Ordered()) && added == old(added) && ends == old(ends) && |launched| == |old(launched)| + 1
      requires launched[..|old(launched)|] == old(launched) && |launched| <= |added| && |launched| <= |ends| + 1
      requires var last := launched[|old(launched)|];
               && last.id == |launched| && last.handler == added[|old(launched)|]
               && last.at > AllowedAt(|old(launched)|) - 2 * NSEC_PER_MSEC
      ensures Ordered()
    {
      forall i | 0 <= i < |old(launched)| ensures launched[i] == old(launched[i]) {
        assert launched[..|old(launched)|][i] == old(launched[i]);
      }
    }
  }

  /** The nodes of a queue and of its pool are among `mine`, and there are no others. */
  ghost predicate Nodes(q: Queue, pool: Pool, mine: set<Task>)
    reads q, pool
  {
    && (forall i :: 0 <= i < |q.tasks| ==> q.tasks[i] in mine)
    && (forall i :: 0 <= i < |pool.items| ==> pool.items[i] in mine)
    && pool.made == |pool.items| + |q.tasks|
  }

  method AnyAdd(q: Queue, pool: Pool, clock: Clock, ghost mine: set<Task>) returns (ghost more: set<Task>)
    requires q.Valid() && q.Sound() && q.Reckoned(clock) && pool.Valid() && Nodes(q, pool, mine)
    modifies q, pool, clock, mine
    ensures q.Valid() && q.Sound() && q.Reckoned(clock) && pool.Valid() && Nodes(q, pool, mine + more)
    ensures fresh(more) && q.completed == old(q.completed)
  {
    var handler: Handler, memory: bool := *, *;
    ghost var before := pool.items;
    var ok := q.AddTask(handler, memory, pool, clock);
    more := if before == [] then (set t | t in pool.items) + (if ok then {q.last} else {}) else {};
    assert before != [] ==> forall i :: 0 <= i < |pool.items| ==> pool.items[i] == before[i];
    assert before != [] && ok ==> q.last == before[|before| - 1];
  }

  /** The last id given is completed, for the first time. */
  method CompleteLast(q: Queue, pool: Pool, clock: Clock, done: nat, ghost mine: set<Task>) returns (done': nat)
    requires q.Valid() && q.Sound() && q.Reckoned(clock) && pool.Valid() && Nodes(q, pool, mine)
    requires done == q.completed < q.nextId
    modifies q, pool, clock, mine
    ensures q.Valid() && q.Sound() && q.Reckoned(clock) && pool.Valid() && Nodes(q, pool, mine) && done' == q.completed
  {
    ghost var tasks, items := q.tasks, pool.items;
    var ok := q.CompleteTask(q.nextId, pool, clock);
    done' := done + 1;
    NodesMove(q, pool, mine, tasks, items);
  }

  lemma NodesMove(q: Queue, pool: Pool, mine: set<Task>, tasks: seq<Task>, items: seq<Task>)
    requires tasks != [] && q.tasks == tasks[1..] && pool.items == items + [tasks[0]] && pool.made == |items| + |tasks|
    requires forall i :: 0 <= i < |tasks| ==> tasks[i] in mine
    requires forall i :: 0 <= i < |items| ==> items[i] in mine
    ensures Nodes(q, pool, mine)
  {
  }

  /** One step of a client that completes each id it is given once, or of the dispatcher. `done` counts
      the completions. */
  method Step(q: Queue, pool: Pool, clock: Clock, done: nat, ghost mine: set<Task>)
    returns (done': nat, ghost more: set<Task>)
    requires q.Valid() && q.Sound() && q.Reckoned(clock) && pool.Valid() && Nodes(q, pool, mine) && done == q.completed
    modifies q, pool, clock, mine
    ensures q.Valid() && q.Sound() && q.Reckoned(clock) && pool.Valid() && Nodes(q, pool, mine + more)
            && done' == q.completed
    ensures fresh(more)
  {
    done', more := done, {};
    var which: int := *;
    if which == 0 {
      more := AnyAdd(q, pool, clock, mine);
    } else if which == 1 && q.nextId > done {
      done' := CompleteLast(q, pool, clock, done, mine);
    } else {
      var now := clock.Read();
      if q.timers > 0 && Due(q.expiry, now) {
        q.TimerFires(clock);
      }
    }
  }

  /** Any run: whatever is added, whenever it is completed, and however the clock goes on, the queue
      stays sound, and no node is lost. */
  method Run(interval: nat, base: nat, limit: nat, readings: seq<Timespec>) returns (q: Queue, pool: Pool)
    requires limit > 0 && Fit(base + limit, interval)
    ensures q.Valid() && q.Sound() && pool.made == |pool.items| + |q.tasks|
  {
    q := new Queue(interval);
    pool := new Pool();
    var clock := new Clock(base, limit, interval, readings);
    var done := 0;
    ghost var mine, more := {}, {};
    var steps: nat := *;
    while steps > 0
      invariant q.Valid() && q.Sound() && q.Reckoned(clock) && pool.Valid() && done == q.completed
      invariant Nodes(q, pool, mine) && fresh(mine) && fresh(q) && fresh(pool) && fresh(clock)
    {
      done, more := Step(q, pool, clock, done, mine);
      mine := mine + more;
      steps := steps - 1;
    }
  }

  /** How long a pause has to go on. */
  lemma LeftUntil(next: Timespec, now: Timespec, interval: nat)
    requires Within(next, 0) && Within(now, 0) && Normal(now) && Nanos(next) <= Nanos(now) + interval * NSEC_PER_MSEC
    ensures var msec := MsecLeft(next, now);
            && 0 <= msec <= interval && (msec == 0 <==> Due(next, now))
            && Nanos(next) < Nanos(now) + (msec + 1) * NSEC_PER_MSEC
            && (msec > 0 ==> Nanos(now) + (msec - 1) * NSEC_PER_MSEC < Nanos(next))
  {
    MsecLeftAccurate(next, now);
    DueExactly(next, now);
  }

  /** A launch timer that is due was armed for at most two milliseconds less. */
  lemma LaunchInTime(expiry: Timespec, next: Timespec, now: Timespec)
    requires Within(expiry, 0) && Within(now, 0) && Normal(now) && Due(expiry, now)
             && Nanos(expiry) > Nanos(next) - NSEC_PER_MSEC
    ensures Nanos(now) > Nanos(next) - 2 * NSEC_PER_MSEC
  {
    DueExactly(expiry, now);
  }

  /** A pause is not over before the clock goes on. */
  lemma PauseGoesOn(next: Timespec, now: Timespec, interval: nat)
    requires Within(next, 0) && Within(now, 0) && Normal(now) && Nanos(next) == Nanos(now) + interval * NSEC_PER_MSEC
    requires interval > 0
    ensures !Due(next, now)
  {
    DueExactly(next, now);
  }

  /** fdd_add_timer_handle: when the timer will expire. */
  method ArmTimer(now: Timespec, msec: nat, ghost limit: nat, ghost reach: nat) returns (expiry: Timespec)
    requires Normal(now) && now.sec < limit && msec <= reach && Fit(limit, reach)
    ensures Within(expiry, 0) && Nanos(expiry) == Nanos(now) + msec * NSEC_PER_MSEC
  {
    expiry := ExpirationTime(now, msec);
  }
}
