/** The timer list of dispatcher.c as it stands in memory: nodes linked through `next`, a list of
    running timers and a pool of unused nodes. */
module TimerQueue {
  import opened Timespec
  import opened TimerList

  const BLOCK_SIZE: nat := 32

  /** Whether there is memory for a block of nodes, and for one. */
  datatype Memory = Memory(block: bool, single: bool)

  datatype Place = Running | Unused | Held

  /** struct fdd_timer_node. */
  class TimerNode {
    var timer: Timer
    var next: TimerNode?
    ghost var stamp: nat
    ghost var place: Place
    ghost var depth: nat        // how many unused nodes are below this one

    constructor ()
      ensures place == Held
    {
      timer, next := Timer(Timespec(0, 0), 0, 0, 0), null;
      stamp, place, depth := 0, Held, 0;
    }
  }

  /** From `head`, following `next` walks through `s` and ends. */
  ghost predicate Linked(head: TimerNode?, s: seq<TimerNode>)
    reads s
  {
    && head == (if s == [] then null else s[0])
    && (forall i {:trigger s[i].next} :: 0 <= i < |s| ==> s[i].next == if i + 1 < |s| then s[i + 1] else null)
  }

  /** A list whose k-th link was redirected through `node`. */
  lemma LinkedThrough(head: TimerNode?, s: seq<TimerNode>, k: nat, node: TimerNode)
    requires k <= |s|
    requires head == if k == 0 then node else s[0]
    requires forall i {:trigger s[i].next} :: 0 <= i < |s| ==>
               s[i].next == if i + 1 == k then node else if i + 1 < |s| then s[i + 1] else null
    requires node.next == if k < |s| then s[k] else null
    ensures Linked(head, s[..k] + [node] + s[k..])
  {
    var t := s[..k] + [node] + s[k..];
    forall i | 0 <= i < |t| ensures t[i].next == if i + 1 < |t| then t[i + 1] else null {
      if i < k {
        assert t[i] == s[i];
        assert t[i + 1] == if i + 1 < k then s[i + 1] else node;
      } else if i == k {
        assert i + 1 < |t| ==> t[i + 1] == s[k];
      } else {
        assert t[i] == s[i - 1];
        assert i + 1 < |t| ==> t[i + 1] == s[i];
      }
    }
  }

  /** A list whose k-th link was redirected past its k-th node. */
  lemma LinkedPast(head: TimerNode?, s: seq<TimerNode>, k: nat)
    requires k < |s|
    requires head == if k > 0 then s[0] else if 1 < |s| then s[1] else null
    requires forall i {:trigger s[i].next} :: 0 <= i < |s| && i != k ==>
               s[i].next == var j := if i + 1 == k then k + 1 else i + 1; if j < |s| then s[j] else null
    ensures Linked(head, s[..k] + s[k + 1..])
  {
    var t := s[..k] + s[k + 1..];
    forall i | 0 <= i < |t| ensures t[i].next == if i + 1 < |t| then t[i + 1] else null {
      if i < k {
        assert t[i] == s[i];
        assert i + 1 < |t| ==> t[i + 1] == if i + 1 < k then s[i + 1] else s[k + 1];
      } else {
        assert t[i] == s[i + 1];
        assert i + 1 < |t| ==> t[i + 1] == s[i + 2];
      }
    }
  }

  ghost predicate Holds(s: seq<TimerNode>, list: seq<Entry>)
    reads s
  {
    |list| == |s| && forall i :: 0 <= i < |s| ==> list[i] == Entry(s[i].timer, s[i].stamp)
  }

  ghost predicate Distinct<T>(s: seq<T>) {
    forall i, j :: 0 <= i < j < |s| ==> s[i] != s[j]
  }

  /** Putting `node` at index k keeps what the list says of its nodes. */
  lemma Spliced(s: seq<TimerNode>, list: seq<Entry>, k: nat, node: TimerNode)
    requires k <= |s| && Distinct(s) && Holds(s, list)
    requires forall i :: 0 <= i < |s| ==> s[i] != node && s[i].place == Running
    requires node.place == Running
    ensures var t, e := s[..k] + [node] + s[k..], Entry(node.timer, node.stamp);
            && Distinct(t) && Holds(t, list[..k] + [e] + list[k..])
            && forall i :: 0 <= i < |t| ==> t[i].place == Running
  {
  }

  /** Taking out the node at index k keeps what the list says of the others. */
  lemma Dropped(s: seq<TimerNode>, list: seq<Entry>, k: nat)
    requires k < |s| && Distinct(s) && Holds(s, list)
    requires forall i :: 0 <= i < |s| && i != k ==> s[i].place == Running
    ensures var t := s[..k] + s[k + 1..];
            && Distinct(t) && Holds(t, list[..k] + list[k + 1..])
            && forall i :: 0 <= i < |t| ==> t[i].place == Running
  {
  }

  /** free_timer_nodes: a stack of unused nodes. */
  class NodePool {
    var unused: TimerNode?
    ghost var pool: seq<TimerNode>      // the unused nodes, the first one last
    ghost var total: nat                // nodes ever made

    ghost predicate Valid()
      reads this, pool
    {
      && unused == (if pool == [] then null else pool[|pool| - 1])
      && (forall i {:trigger pool[i].next} :: 0 <= i < |pool| ==> pool[i].next == if i == 0 then null else pool[i - 1])
      && (forall i :: 0 <= i < |pool| ==> pool[i].place == Unused && pool[i].depth == i)
    }

    constructor ()
      ensures Valid() && pool == [] && total == 0
    {
      unused, pool, total := null, [], 0;
    }

    /** timer_free_node. */
    method FreeNode(node: TimerNode)
      requires Valid() && node.place == Held
      modifies this, node
      ensures Valid() && pool == old(pool) + [node] && total == old(total) && node.place == Unused
    {
      node.place, node.depth := Unused, |pool|;
      node.next := unused;
      unused := node;
      pool := pool + [node];
    }

    /** The allocation in timer_alloc_node: a block of nodes, else one, else nothing. */
    method Refill(memory: Memory)
      requires Valid() && pool == []
      modifies this
      ensures Valid() && |pool| == (if memory.block then 32 else if memory.single then 1 else 0)
      ensures total == old(total) + |pool|
      ensures forall i :: 0 <= i < |pool| ==> fresh(pool[i])
    {
      if memory.block {
        for i := 0 to BLOCK_SIZE
          invariant Valid() && |pool| == i && total == old(total) + i
          invariant forall i :: 0 <= i < |pool| ==> fresh(pool[i])
        {
          var n := new TimerNode();
          total := total + 1;
          FreeNode(n);
        }
      } else if memory.single {
        var n := new TimerNode();
        total := total + 1;
        FreeNode(n);
      }
    }

    /** timer_alloc_node: takes a node off the pool and fills it in. */
    method AllocNode(timer: Timer, memory: Memory) returns (node: TimerNode?)
      requires Valid()
      modifies this, unused
      ensures Valid()
      ensures node == null <==> old(pool) == [] && !memory.block && !memory.single
      ensures node == null ==> pool == []
      ensures total == old(total) + if old(pool) != [] then 0 else if memory.block then 32
                                    else if memory.single then 1 else 0
      ensures node != null ==>
                && node.place == Held && node.timer == timer
                && |pool| + 1 - |old(pool)| == total - old(total)
                && (if old(pool) == [] then fresh(node) else node == old(unused))
                && (if old(pool) == [] then forall i :: 0 <= i < |pool| ==> fresh(pool[i])
                    else pool + [node] == old(pool))
    {
      if unused == null {
        Refill(memory);
        if unused == null {
          return null;
        }
      }
      node := unused;
      unused := node.next;
      pool := pool[..|pool| - 1];
      node.place, node.timer, node.next := Held, timer, null;
    }
  }

  /** f_dispatcher_timers: the running timers. */
  class TimerQueue {
    var head: TimerNode?
    ghost var list: seq<Entry>
    ghost var active: seq<TimerNode>
    ghost var inserted: nat

    ghost predicate Valid()
      reads this, active
    {
      && Linked(head, active) && Distinct(active) && Holds(active, list)
      && (forall i :: 0 <= i < |active| ==> active[i].place == Running)
    }

    constructor ()
      ensures Valid() && list == [] && inserted == 0
    {
      head, list, active, inserted := null, [], [], 0;
    }

    /** The search in fdd_add_timer_node: the timer to link `node` in behind, null for the front. */
    method PlaceFor(node: TimerNode) returns (ptr: TimerNode?, ghost k: nat)
      requires Valid()
      ensures k <= |active| && ptr == if k == 0 then null else active[k - 1]
      ensures forall j :: 0 <= j < k ==> Compare(node.timer.expires, list[j].expires) >= 0
      ensures k < |list| ==> Compare(node.timer.expires, list[k].expires) < 0
    {
      if head == null || Compare(node.timer.expires, head.timer.expires) < 0 {
        return null, 0;
      }
      ptr, k := head, 1;
      while ptr.next != null
        modifies {}
        invariant 1 <= k <= |active| && ptr == active[k - 1]
        invariant forall j :: 0 <= j < k ==> Compare(node.timer.expires, list[j].expires) >= 0
        decreases |active| - k
      {
        assert ptr.next == active[k] && list[k].timer == ptr.next.timer;
        if Compare(node.timer.expires, ptr.next.timer.expires) < 0 {
          return;
        }
        ptr, k := ptr.next, k + 1;
      }
    }

    /** The linking in fdd_add_timer_node. */
    method LinkBehind(ptr: TimerNode?, node: TimerNode, ghost k: nat)
      requires Valid() && node.place == Held
      requires k <= |active| && ptr == if k == 0 then null else active[k - 1]
      modifies this, node, ptr
      ensures Valid() && inserted == old(inserted) + 1
      ensures active == old(active)[..k] + [node] + old(active)[k..]
      ensures list == old(list)[..k] + [Entry(old(node.timer), old(inserted))] + old(list)[k..]
      ensures node.place == Running && (ptr != null ==> ptr.place == Running)
    {
      node.stamp, node.place := inserted, Running;
      if ptr == null {
        node.next := head;
        head := node;
      } else {
        node.next := ptr.next;
        ptr.next := node;
      }
      LinkedThrough(head, active, k, node);
      Spliced(active, list, k, node);
      list := list[..k] + [Entry(node.timer, node.stamp)] + list[k..];
      active := active[..k] + [node] + active[k..];
      inserted := inserted + 1;
    }

    /** fdd_add_timer_node: links a node in before the first timer that expires strictly later. */
    method AddNode(node: TimerNode)
      requires Valid() && node.place == Held
      modifies this, node, active
      ensures Valid() && inserted == old(inserted) + 1
      ensures exists k :: 0 <= k <= |old(active)| && active == old(active)[..k] + [node] + old(active)[k..]
      ensures list == Insert(old(list), Entry(old(node.timer), old(inserted)))
      ensures node.place == Running && forall n :: n in old(active) ==> n.place == Running
    {
      var ptr, k := PlaceFor(node);
      InsertAt(list, Entry(node.timer, inserted), k);
      LinkBehind(ptr, node, k);
    }

    /** Takes the k-th timer off the list; `ptr` is the node in front of it, null for the first. */
    method Unlink(ptr: TimerNode?, ghost k: nat) returns (node: TimerNode)
      requires Valid() && k < |active| && ptr == if k == 0 then null else active[k - 1]
      modifies this, active[k], ptr
      ensures Valid() && node == old(active[k]) && node.place == Held && node.timer == old(list)[k].timer
      ensures active == old(active)[..k] + old(active)[k + 1..] && inserted == old(inserted)
      ensures list == old(list)[..k] + old(list)[k + 1..]
      ensures ptr != null ==> ptr.place == Running
    {
      node := if ptr == null then head else ptr.next;
      assert node == active[k];
      if ptr == null {
        head := node.next;
      } else {
        ptr.next := node.next;
      }
      node.place := Held;
      LinkedPast(head, active, k);
      Dropped(active, list, k);
      list := list[..k] + list[k + 1..];
      active := active[..k] + active[k + 1..];
    }
  }
}
