/** Those who wait for an answer: the list and the pool of utils.c together. */
module DnsWaiters {
  import opened DnsQueue

  class Waiters {
    const queue: Queue
    const pool: Pool
    ghost var nodes: set<Query>             // all nodes ever made

    /** Every node is in the list or in the pool. */
    ghost predicate Valid()
      reads this, queue, pool, nodes
    {
      && Inside(queue.items, nodes) && Inside(pool.items, nodes) && |nodes| == |queue.items| + |pool.items|
      && queue.Valid() && pool.Valid()
    }

    constructor ()
      ensures Valid() && fresh(queue) && fresh(pool) && nodes == {} && queue.waiting == []
    {
      queue := new Queue();
      pool := new Pool();
      nodes := {};
    }

    /** The callback gets a node at the end of the list: whether nobody waited before. */
    method Join(callback: Callback) returns (first: bool)
      requires Valid()
      modifies this, queue, pool, nodes
      ensures Valid() && fresh(nodes - old(nodes))
      ensures queue.waiting == old(queue.waiting) + [callback] && first == (old(queue.waiting) == [])
    {
      var node := Make(callback);
      first := queue.Append(node);
    }

    /** A node that is neither in the list nor in the pool. */
    method Make(callback: Callback) returns (node: Query)
      requires Valid()
      modifies `nodes, pool, pool.items
      ensures queue.Valid()
      ensures node.callback == callback && node.next == null && !node.free && !InList(node, queue.items)
      ensures Made(node) && fresh(nodes - old(nodes))
    {
      ghost var spare := pool.items;
      node := pool.NewNode(callback);
      if spare != [] {
        InsideParts(pool.items, [node], spare, nodes);
        assert [node][0] in nodes;
        assert nodes + {node} == nodes;
      }
      nodes := nodes + {node};
    }

    ghost predicate Made(node: Query)
      reads this, queue`items, pool, pool.items
    {
      && Inside(queue.items, nodes) && Inside(pool.items, nodes) && node in nodes
      && |nodes| == |queue.items| + |pool.items| + 1 && pool.Valid()
    }

    /** The first of them leaves: whether nobody waits any more. */
    method Leave() returns (callback: Callback, empty: bool)
      requires Valid() && queue.waiting != []
      modifies this, queue, pool, nodes
      ensures Valid() && nodes == old(nodes)
      ensures [callback] + queue.waiting == old(queue.waiting) && empty == (queue.waiting == [])
    {
      var node: Query;
      node, empty := TakeOut();
      callback := node.callback;
      pool.FreeNode(node);
    }

    /** The first node of the list, now neither in the list nor in the pool. */
    method TakeOut() returns (node: Query, empty: bool)
      requires Valid() && queue.waiting != []
      modifies queue
      ensures queue.Valid() && [node.callback] + queue.waiting == old(queue.waiting)
      ensures !node.free && !InList(node, queue.items) && empty == (queue.waiting == []) && Made(node)
    {
      ghost var all := queue.items;
      node, empty := queue.TakeFirst();
      InsideParts([node], queue.items, all, nodes);
      assert [node][0] in nodes;
    }
  }

  ghost predicate Inside(items: seq<Query>, nodes: set<Query>) {
    forall i :: 0 <= i < |items| ==> items[i] in nodes
  }

  lemma InsideParts(a: seq<Query>, b: seq<Query>, all: seq<Query>, nodes: set<Query>)
    requires a + b == all && Inside(all, nodes)
    ensures Inside(a, nodes) && Inside(b, nodes)
  {
    forall i | 0 <= i < |a| ensures a[i] in nodes {
      assert a[i] == all[i];
    }
    forall i | 0 <= i < |b| ensures b[i] in nodes {
      assert b[i] == all[|a| + i];
    }
  }

  ghost predicate InList(node: Query, items: seq<Query>) {
    exists i :: 0 <= i < |items| && items[i] == node
  }
}
