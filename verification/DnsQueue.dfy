/** The list of DNS queries that wait for an answer (utils.c), and the pool of its nodes. */
module DnsQueue {
  /** A notify function with its context. */
  type Callback = nat

  /** fdu_dns_service_query. */
  class Query {
    var next: Query?
    var callback: Callback
    ghost var free: bool
    ghost var number: nat       // in the pool, how many are below; in the list, the how-manieth to come

    constructor ()
      ensures !free
    {
      next, callback, free, number := null, 0, false, 0;
    }
  }

  /** free_dns_query_nodes. */
  class Pool {
    var head: Query?
    ghost var items: seq<Query>     // the first one last

    ghost predicate Valid()
      reads this, items
    {
      && head == (if items == [] then null else items[|items| - 1])
      && (forall i {:trigger items[i].next} ::
            0 <= i < |items| ==> items[i].next == if i == 0 then null else items[i - 1])
      && (forall i :: 0 <= i < |items| ==> items[i].free && items[i].number == i)
    }

    constructor ()
      ensures Valid() && items == []
    {
      head, items := null, [];
    }

    /** new_dns_query_node, when there is memory. */
    method NewNode(callback: Callback) returns (node: Query)
      requires Valid()
      modifies this, head
      ensures Valid() && node.callback == callback && node.next == null && !node.free
      ensures if old(items) == [] then fresh(node) && items == [] else items + [node] == old(items)
    {
      if head == null {
        node := new Query();
      } else {
        node := TakeSpare();
      }
      node.next, node.callback, node.free := null, callback, false;
    }

    method TakeSpare() returns (node: Query)
      requires Valid() && items != []
      modifies this
      ensures Valid() && items + [node] == old(items) && node == old(head)
      ensures forall i :: 0 <= i < |items| ==> items[i] != node
    {
      node := head;
      head := head.next;
      items := items[..|items| - 1];
    }

    /** free_dns_query_node. */
    method FreeNode(node: Query)
      requires Valid() && !node.free
      modifies this, node
      ensures Valid() && items == old(items) + [node]
    {
      node.next, node.free, node.number := head, true, |items|;
      head := node;
      items := items + [node];
    }
  }

  class Queue {
    var head: Query?
    var tail: Query?
    ghost var items: seq<Query>
    ghost var taken: nat                // how many have left the list
    ghost var waiting: seq<Callback>    // the callbacks of those in the list

    ghost predicate Valid()
      reads this, items
    {
      && head == (if items == [] then null else items[0]) && tail == (if items == [] then null else items[|items| - 1])
      && (forall i {:trigger items[i].next} ::
            0 <= i < |items| ==> items[i].next == if i + 1 < |items| then items[i + 1] else null)
      && (forall i :: 0 <= i < |items| ==> !items[i].free && items[i].number == taken + i)
      && |waiting| == |items| && (forall i :: 0 <= i < |items| ==> waiting[i] == items[i].callback)
    }

    constructor ()
      ensures Valid() && items == [] && waiting == []
    {
      head, tail, items, taken, waiting := null, null, [], 0, [];
    }

    /** The end of fdu_dnsserv_lookup: whether the list was empty before. */
    method Append(node: Query) returns (first: bool)
      requires Valid() && node.next == null && !node.free && forall i :: 0 <= i < |items| ==> items[i] != node
      modifies this, node`number, items`next
      ensures Valid() && first == old(items == []) && items == old(items) + [node]
              && waiting == old(waiting) + [node.callback]
    {
      node.number := taken + |items|;
      first := tail == null;
      if tail != null {
        tail.next := node;
        tail := node;
      } else {
        head, tail := node, node;
      }
      items, waiting := items + [node], waiting + [node.callback];
    }

    /** The first query leaves the list: whether the list is empty now. */
    method TakeFirst() returns (node: Query, empty: bool)
      requires Valid() && head != null
      modifies this
      ensures Valid() && [node] + items == old(items) && !node.free && empty == (items == [])
      ensures [node.callback] + waiting == old(waiting)
      ensures forall i :: 0 <= i < |items| ==> items[i] != node
    {
      node := head;
      head := head.next;
      empty := head == null;
      if empty {
        tail := null;
      }
      items, taken, waiting := items[1..], taken + 1, waiting[1..];
    }
  }
}
