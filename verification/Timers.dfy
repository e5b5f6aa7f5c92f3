/** The timer interface of dispatcher.c: adding, cancelling and firing, over the list of running
    timers and the pool of unused nodes. */
module Timers {
  import opened TimerList
  import opened TimerQueue

  class Timers {
    const pool: NodePool
    const queue: TimerQueue
    ghost var nodes: set<TimerNode>     // the nodes on the list or in the pool
    ghost var held: nat                 // nodes taken off the list, and not yet given back

    /** Every node ever made is running, unused or held, and in one place only. */
    ghost predicate Valid()
      reads this, pool, queue, pool.pool, queue.active, nodes
    {
      && pool.Valid() && queue.Valid()
      && (forall n :: n in nodes ==> n.place != Held)
      && (forall i :: 0 <= i < |queue.active| ==> queue.active[i] in nodes)
      && (forall i :: 0 <= i < |pool.pool| ==> pool.pool[i] in nodes)
      && |queue.active| + |pool.pool| + held == pool.total
    }

    ghost function List(): seq<Entry>
      reads this, queue
    {
      queue.list
    }

    constructor ()
      ensures Valid() && List() == [] && held == 0 && queue.inserted == 0
      ensures fresh(pool) && fresh(queue) && nodes == {}
    {
      pool := new NodePool();
      queue := new TimerQueue();
      nodes, held := {}, 0;
    }

    /** timer_alloc_node. */
    method Acquire(timer: Timer, memory: Memory) returns (node: TimerNode?)
      requires Valid()
      modifies this, pool, pool.unused
      ensures Valid() && fresh(nodes - old(nodes)) && List() == old(List()) && queue.inserted == old(queue.inserted)
      ensures node == null <==> old(pool.pool) == [] && !memory.block && !memory.single
      ensures node == null ==> held == old(held)
      ensures node != null ==> held == old(held) + 1 && node.place == Held && node.timer == timer
                               && (node in old(nodes) || fresh(node))
    {
      ghost var before := pool.pool;
      node := pool.AllocNode(timer, memory);
      if node == null {
        return;
      }
      if before == [] {
        nodes := nodes + set n | n in pool.pool;
      } else {
        assert node == before[|before| - 1] && pool.pool == before[..|before| - 1];
        nodes := nodes - {node};
      }
      held := held + 1;
    }

    /** Takes the first timer off the list, to fire it. */
    method TakeFirst() returns (node: TimerNode)
      requires Valid() && queue.head != null
      modifies this, queue, nodes
      ensures Valid() && held == old(held) + 1 && queue.inserted == old(queue.inserted)
      ensures node in old(nodes) && nodes == old(nodes) - {node} && node.place == Held
      ensures old(List()) == [Entry(node.timer, old(List()[0].stamp))] + List()
    {
      assert queue.head == queue.active[0];
      node := queue.Unlink(null, 0);
      nodes, held := nodes - {node}, held + 1;
    }

    /** Puts a timer that fired back on the list. */
    method Requeue(node: TimerNode)
      requires Valid() && held > 0 && node.place == Held
      modifies this, queue, node, nodes
      ensures Valid() && held == old(held) - 1 && nodes == old(nodes) + {node}
      ensures List() == Insert(old(List()), Entry(old(node.timer), old(queue.inserted)))
      ensures queue.inserted == old(queue.inserted) + 1
    {
      queue.AddNode(node);
      nodes, held := nodes + {node}, held - 1;
    }

    /** fdd_add_timer_handle, once the expiry is known; fails only for want of memory. */
    method AddTimer(timer: Timer, memory: Memory) returns (ok: bool)
      requires Valid()
      modifies this, pool, queue, nodes
      ensures Valid() && held == old(held) && fresh(nodes - old(nodes))
      ensures ok <==> old(pool.pool) != [] || memory.block || memory.single
      ensures List() == if ok then Insert(old(List()), Entry(timer, old(queue.inserted))) else old(List())
      ensures queue.inserted == old(queue.inserted) + if ok then 1 else 0
    {
      assert pool.unused != null ==> pool.unused in nodes;
      var node := Acquire(timer, memory);
      if node == null {
        return false;
      }
      Requeue(node);
      ok := true;
    }

    /** Gives the node of a timer that fired for the last time back to the pool. */
    method Release(node: TimerNode)
      requires Valid() && held > 0 && node.place == Held
      modifies this, pool, node
      ensures Valid() && held == old(held) - 1 && nodes == old(nodes) + {node}
      ensures List() == old(List()) && queue.inserted == old(queue.inserted)
    {
      pool.FreeNode(node);
      nodes, held := nodes + {node}, held - 1;
    }

    /** Takes the k-th timer off the list and back to the pool. */
    method Discard(ptr: TimerNode?, ghost k: nat)
      requires Valid() && k < |queue.active| && ptr == if k == 0 then null else queue.active[k - 1]
      modifies this, pool, queue, nodes
      ensures Valid() && held == old(held) && nodes == old(nodes) && queue.inserted == old(queue.inserted)
      ensures queue.active == old(queue.active)[..k] + old(queue.active)[k + 1..]
      ensures List() == old(List())[..k] + old(List())[k + 1..]
    {
      assert queue.active[k] in nodes && (ptr != null ==> ptr in nodes);
      var node := queue.Unlink(ptr, k);
      pool.FreeNode(node);
    }

    /** fdd_cancel_timer. */
    method CancelTimer(handle: nat)
      requires Valid()
      modifies this, pool, queue, nodes
      ensures Valid() && held == old(held) && nodes == old(nodes) && queue.inserted == old(queue.inserted)
      ensures List() == if handle == 0 then old(List()) else Without(old(List()), handle)
    {
      if handle == 0 {
        return;
      }
      while queue.head != null && queue.head.timer.handle == handle
        invariant Valid() && held == old(held) && nodes == old(nodes) && queue.inserted == old(queue.inserted)
        invariant Without(List(), handle) == Without(old(List()), handle)
        decreases |List()|
      {
        assert List()[0].timer == queue.active[0].timer;
        WithoutOne(List(), 0, handle);
        Discard(null, 0);
      }
      if queue.head == null {
        assert List() == [];
        return;
      }
      CancelRest(handle);
    }

    /** The second loop of fdd_cancel_timer. */
    method CancelRest(handle: nat)
      requires Valid() && queue.head != null && queue.head.timer.handle != handle
      modifies this, pool, queue, nodes
      ensures Valid() && held == old(held) && nodes == old(nodes) && queue.inserted == old(queue.inserted)
      ensures List() == Without(old(List()), handle)
    {
      var ptr: TimerNode, k := queue.head, 0;
      while ptr.next != null
        invariant Valid() && held == old(held) && nodes == old(nodes) && queue.inserted == old(queue.inserted)
        invariant Without(List(), handle) == Without(old(List()), handle)
        invariant 0 <= k < |queue.active| && ptr == queue.active[k]
        invariant forall j :: 0 <= j <= k ==> List()[j].timer.handle != handle
        decreases |List()| - k
      {
        assert ptr.next == queue.active[k + 1] && List()[k + 1].timer == ptr.next.timer;
        if ptr.next.timer.handle == handle {
          WithoutOne(List(), k + 1, handle);
          Discard(ptr, k + 1);
        } else {
          ptr, k := ptr.next, k + 1;
        }
      }
      WithoutNothing(List(), handle);
    }
  }
}
