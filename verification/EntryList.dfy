/** The doubly linked lists of dispatcher_zmq.c. */
module EntryList {
  /** A service; 0 is the null pointer. */
  type Service = nat

  /** fd_entry_s; sockets are left out. */
  class Entry {
    var next: Entry?
    var prev: Entry?
    var input: Service
    var output: Service
    var fd: int
    ghost var home: List?       // the list it is on

    constructor ()
      ensures next == null && prev == null && input == 0 && output == 0 && fd == 0 && home == null
    {
      next, prev, input, output, fd, home := null, null, 0, 0, 0, null;
    }
  }

  /** The entries of a list, the head last: `next` leads down, `prev` leads up. */
  ghost predicate Linked(head: Entry?, s: seq<Entry>)
    reads s`next, s`prev
  {
    && head == (if s == [] then null else s[|s| - 1])
    && (forall i {:trigger s[i].next} :: 0 <= i < |s| ==> s[i].next == if i == 0 then null else s[i - 1])
    && (forall i {:trigger s[i].prev} :: 0 <= i < |s| ==> s[i].prev == if i + 1 < |s| then s[i + 1] else null)
  }

  ghost predicate Distinct(s: seq<Entry>) {
    forall i, j :: 0 <= i < j < |s| ==> s[i] != s[j]
  }

  class List {
    var head: Entry?
    ghost var items: seq<Entry>

    ghost predicate Valid()
      reads this, items`next, items`prev, items`home
    {
      Linked(head, items) && Distinct(items) && forall i :: 0 <= i < |items| ==> items[i].home == this
    }

    constructor ()
      ensures Valid() && items == [] && head == null
    {
      head, items := null, [];
    }

    /** list_push. */
    method Push(entry: Entry)
      requires Valid() && entry.home == null
      modifies this, entry`next, entry`prev, entry`home, items`prev
      ensures Valid() && items == old(items) + [entry] && entry.home == this
    {
      if head == null {
        entry.next := null;
      } else {
        head.prev := entry;
        entry.next := head;
      }
      entry.prev := null;
      entry.home := this;
      head := entry;
      items := items + [entry];
    }

    /** list_remove; the entry is the k-th from below. */
    method Remove(entry: Entry, ghost k: nat)
      requires Valid() && k < |items| && items[k] == entry
      modifies this, items`next, items`prev, entry`home
      ensures Valid() && items == old(items)[..k] + old(items)[k + 1..] && entry.home == null
    {
      if entry.next != null {
        entry.next.prev := entry.prev;
      }
      if entry.prev != null {
        entry.prev.next := entry.next;
      } else {
        head := entry.next;
      }
      entry.next := null;
      entry.prev := null;
      entry.home := null;
      LinkedPast(head, items, k);
      items := items[..k] + items[k + 1..];
    }

    /** list_pop, of a list that is not empty. */
    method Pop() returns (entry: Entry)
      requires Valid() && head != null
      modifies this, items`next, items`prev, head`home
      ensures Valid() && items + [entry] == old(items) && entry == old(head) && entry.home == null
    {
      entry := head;
      ghost var k := |items| - 1;
      Remove(entry, k);
    }
  }

  /** Two other lists are not disturbed by what is done to one. */
  method PushOne(list: List, entry: Entry, other: List, another: List)
    requires list.Valid() && other.Valid() && another.Valid() && list != other && list != another && entry.home == null
    modifies list, entry`next, entry`prev, entry`home, list.items`prev
    ensures list.Valid() && other.Valid() && another.Valid()
    ensures list.items == old(list.items) + [entry] && entry.home == list && list.head == entry
  {
    list.Push(entry);
  }

  method RemoveOne(list: List, entry: Entry, ghost k: nat, other: List, another: List)
    requires list.Valid() && other.Valid() && another.Valid() && list != other && list != another
    requires k < |list.items| && list.items[k] == entry
    modifies list, list.items`next, list.items`prev, entry`home
    ensures list.Valid() && other.Valid() && another.Valid()
    ensures list.items == old(list.items)[..k] + old(list.items)[k + 1..] && entry.home == null
  {
    list.Remove(entry, k);
  }

  /** The loop of reuse_removed_entries that goes to the last entry, which is the lowest. */
  method Lowest(list: List) returns (last: Entry)
    requires list.Valid() && list.head != null
    ensures last == list.items[0]
  {
    last := list.head;
    ghost var k := |list.items| - 1;
    while last.next != null
      invariant 0 <= k < |list.items| && list.items[k] == last
      decreases k
    {
      last := last.next;
      k := k - 1;
    }
  }

  /** The splice in reuse_removed_entries: all of `from` comes on top of `to`. */
  method Splice(to: List, from: List)
    requires to.Valid() && from.Valid() && to != from && from.head != null
    modifies to, from, to.items`prev, from.items`next, from.items`home
    ensures to.Valid() && from.Valid() && from.items == [] && to.items == old(to.items) + old(from.items)
    ensures forall e :: e in old(from.items) ==> e.home == to
  {
    if to.head != null {
      var last := Lowest(from);
      last.next := to.head;
      to.head.prev := last;
    }
    LinkedOnto(from.head, to.items, from.items);
    to.head := from.head;
    from.head := null;
    forall e | e in from.items {
      e.home := to;
    }
    to.items, from.items := to.items + from.items, [];
  }

  /** A list whose lowest entry has been put on top of another list. */
  lemma LinkedOnto(head: Entry?, s: seq<Entry>, t: seq<Entry>)
    requires t != [] && Distinct(s) && Distinct(t) && (forall e :: e in s ==> e !in t)
    requires head == t[|t| - 1]
    requires forall i {:trigger s[i].next} :: 0 <= i < |s| ==> s[i].next == if i == 0 then null else s[i - 1]
    requires forall i {:trigger s[i].prev} :: 0 <= i < |s| ==> s[i].prev == if i + 1 < |s| then s[i + 1] else t[0]
    requires forall i {:trigger t[i].next} :: 0 <= i < |t| ==>
               t[i].next == if i > 0 then t[i - 1] else if s == [] then null else s[|s| - 1]
    requires forall i {:trigger t[i].prev} :: 0 <= i < |t| ==> t[i].prev == if i + 1 < |t| then t[i + 1] else null
    ensures Linked(head, s + t) && Distinct(s + t)
  {
    forall i, j | 0 <= i < |s| && 0 <= j < |t| ensures s[i] != t[j] {
      assert s[i] in s && t[j] in t;
    }
  }

  /** A list whose links have been led past its k-th entry. */
  lemma LinkedPast(head: Entry?, s: seq<Entry>, k: nat)
    requires k < |s| && Distinct(s)
    requires head == if k + 1 < |s| then s[|s| - 1] else if k > 0 then s[k - 1] else null
    requires forall i {:trigger s[i].next} :: 0 <= i < |s| && i != k ==>
               s[i].next == if i == k + 1 then (if k == 0 then null else s[k - 1])
                            else if i == 0 then null else s[i - 1]
    requires forall i {:trigger s[i].prev} :: 0 <= i < |s| && i != k ==>
               s[i].prev == if i + 1 == k then (if k + 1 < |s| then s[k + 1] else null)
                            else if i + 1 < |s| then s[i + 1] else null
    ensures Linked(head, s[..k] + s[k + 1..]) && Distinct(s[..k] + s[k + 1..])
  {
    var t := s[..k] + s[k + 1..];
    forall i | 0 <= i < |t| ensures t[i].next == if i == 0 then null else t[i - 1] {
      assert t[i] == s[if i < k then i else i + 1];
    }
    forall i | 0 <= i < |t| ensures t[i].prev == if i + 1 < |t| then t[i + 1] else null {
      assert t[i] == s[if i < k then i else i + 1];
    }
  }
}
