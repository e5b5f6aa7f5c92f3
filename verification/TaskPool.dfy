/** The pool of task nodes of task_queue.c. */
module TaskPool {
  const ALLOCATION_CHUNK: nat := 16

  type Handler = nat

  /** task_s. A handler is given together with its context; 0 is the null pointer. */
  class Task {
    var handler: Handler
    var next: Task?
    ghost var pooled: bool
    ghost var number: nat       // in the pool, how many are below; in the queue, the how-manieth to be added

    constructor ()
      ensures !pooled
    {
      handler, next, pooled, number := 0, null, false, 0;
    }
  }

  /** f_misplaced_tasks: a stack of tasks that are not in use. */
  class Pool {
    var head: Task?
    ghost var items: seq<Task>  // the first one last
    ghost var made: nat

    ghost predicate Valid()
      reads this, items
    {
      && head == (if items == [] then null else items[|items| - 1])
      && (forall i {:trigger items[i].next} ::
            0 <= i < |items| ==> items[i].next == if i == 0 then null else items[i - 1])
      && (forall i :: 0 <= i < |items| ==> items[i].pooled && items[i].number == i)
    }

    constructor ()
      ensures Valid() && items == [] && made == 0
    {
      head, items, made := null, [], 0;
    }

    /** misplace_task. */
    method Misplace(task: Task)
      requires Valid() && !task.pooled
      modifies this`head, this`items, task
      ensures Valid() && items == old(items) + [task] && task.pooled
    {
      task.handler := 0;
      task.pooled, task.number := true, |items|;
      task.next := head;
      head := task;
      items := items + [task];
    }

    method Refill(memory: bool) returns (ok: bool)
      requires Valid() && items == []
      modifies this
      ensures Valid() && ok == memory && |items| == made - old(made) == (if ok then ALLOCATION_CHUNK else 0)
      ensures forall i :: 0 <= i < |items| ==> fresh(items[i])
    {
      ok := memory;
      if ok {
        for i := 0 to ALLOCATION_CHUNK
          invariant Valid() && |items| == i == made - old(made)
          invariant forall i :: 0 <= i < |items| ==> fresh(items[i])
        {
          var task := new Task();
          made := made + 1;
          Misplace(task);
        }
      }
    }

    /** obtain_task, given whether there is memory if the pool is empty. */
    method Obtain(memory: bool) returns (task: Task?)
      requires Valid()
      modifies this, head
      ensures Valid()
      ensures task == null <==> old(items) == [] && !memory
      ensures task == null ==> items == [] && made == old(made)
      ensures task != null ==>
                && !task.pooled && task.next == null && made - |items| == old(made - |items|) + 1
                && (if old(items) == [] then fresh(task) && forall i :: 0 <= i < |items| ==> fresh(items[i])
                    else task == old(head) && items + [task] == old(items))
    {
      if head == null {
        var ok := Refill(memory);
        if !ok {
          return null;
        }
      }
      task := head;
      head := head.next;
      items := items[..|items| - 1];
      task.handler, task.next, task.pooled := 0, null, false;
    }
  }
}
