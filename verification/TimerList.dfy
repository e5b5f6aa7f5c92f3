/** What the timer list of dispatcher.c means: a sequence of entries, sorted by expiry, in which
    entries that compare equal stand in the order they were put in. */
module TimerList {
  import opened Timespec

  /** What a timer node holds. `tag` stands for the notify function with its context and id. */
  datatype Timer = Timer(expires: Timespec, recurring: nat, handle: nat, tag: int)

  /** A timer and its place in the order of insertions; one that is queued again gets a new place. */
  datatype Entry = Entry(timer: Timer, stamp: nat) {
    const expires: Timespec := timer.expires
  }

  predicate Before(a: Entry, b: Entry) {
    Compare(a.expires, b.expires) < 0 || (a.expires == b.expires && a.stamp < b.stamp)
  }

  ghost predicate Ordered(list: seq<Entry>) {
    forall i, j :: 0 <= i < j < |list| ==> Before(list[i], list[j])
  }

  ghost predicate Bounded(list: seq<Entry>, stamp: nat, base: nat) {
    forall e :: e in list ==> Within(e.expires, base) && e.stamp < stamp
  }

  /** fdd_add_timer_node: in front of the first entry that expires strictly later. */
  function Insert(list: seq<Entry>, e: Entry): seq<Entry> {
    if list == [] || Compare(e.expires, list[0].expires) < 0 then [e] + list
    else [list[0]] + Insert(list[1..], e)
  }

  /** fdd_cancel_timer, for a handle other than 0. */
  function Without(list: seq<Entry>, handle: nat): seq<Entry> {
    if list == [] then []
    else if list[0].timer.handle == handle then Without(list[1..], handle)
    else [list[0]] + Without(list[1..], handle)
  }

  lemma {:induction false} InsertAt(list: seq<Entry>, e: Entry, k: nat)
    requires k <= |list|
    requires forall j :: 0 <= j < k ==> Compare(e.expires, list[j].expires) >= 0
    requires k < |list| ==> Compare(e.expires, list[k].expires) < 0
    ensures Insert(list, e) == list[..k] + [e] + list[k..]
  {
    hide Compare;
    if k > 0 {
      InsertAt(list[1..], e, k - 1);
      assert list[1..][..k - 1] == list[1..k];
      assert list[..k] == [list[0]] + list[1..k];
    }
  }

  lemma {:induction false} InsertMembers(list: seq<Entry>, e: Entry)
    ensures multiset(Insert(list, e)) == multiset(list) + multiset{e}
  {
    if !(list == [] || Compare(e.expires, list[0].expires) < 0) {
      assert list == [list[0]] + list[1..];
      InsertMembers(list[1..], e);
    }
  }

  lemma {:induction false} InsertOrdered(list: seq<Entry>, e: Entry, base: nat)
    requires Ordered(list) && Bounded(list, e.stamp, base) && Within(e.expires, base)
    ensures Ordered(Insert(list, e)) && Bounded(Insert(list, e), e.stamp + 1, base)
  {
    if list == [] {
    } else if Compare(e.expires, list[0].expires) < 0 {
      forall i | 0 <= i < |list| ensures Before(e, list[i]) {
        CompareTransitive(e.expires, list[0].expires, list[i].expires);
        CompareFollowsRealTime(list[0].expires, list[i].expires);
      }
    } else {
      var rest := list[1..];
      InsertOrdered(rest, e, base);
      InsertMembers(rest, e);
      CompareFollowsRealTime(e.expires, list[0].expires);
      assert Before(list[0], e);
      forall x | x in Insert(rest, e) ensures Before(list[0], x) {
        assert x in multiset(Insert(rest, e));
        if x != e {
          assert x in rest;
        }
      }
    }
  }

  lemma {:induction false} WithoutMembers(list: seq<Entry>, handle: nat)
    ensures forall e :: multiset(Without(list, handle))[e] == if e.timer.handle == handle then 0 else multiset(list)[e]
  {
    if list != [] {
      assert list == [list[0]] + list[1..];
      WithoutMembers(list[1..], handle);
    }
  }

  lemma OrderedCons(e: Entry, list: seq<Entry>)
    requires Ordered(list) && forall x :: x in list ==> Before(e, x)
    ensures Ordered([e] + list)
  {
  }

  lemma {:induction false} WithoutOrdered(list: seq<Entry>, handle: nat, stamp: nat, base: nat)
    requires Ordered(list) && Bounded(list, stamp, base)
    ensures Ordered(Without(list, handle)) && Bounded(Without(list, handle), stamp, base)
  {
    if list != [] {
      var rest := list[1..];
      WithoutOrdered(rest, handle, stamp, base);
      WithoutMembers(rest, handle);
      forall x | x in Without(rest, handle) ensures x in rest {
        assert x in multiset(Without(rest, handle));
        assert x in multiset(rest);
      }
      assert forall x :: x in rest ==> Before(list[0], x);
      OrderedCons(list[0], Without(rest, handle));
    }
  }

  lemma {:induction false} WithoutSplit(a: seq<Entry>, b: seq<Entry>, handle: nat)
    ensures Without(a + b, handle) == Without(a, handle) + Without(b, handle)
  {
    if a == [] {
      assert a + b == b;
    } else {
      assert (a + b)[1..] == a[1..] + b;
      WithoutSplit(a[1..], b, handle);
    }
  }

  lemma {:induction false} WithoutNothing(list: seq<Entry>, handle: nat)
    requires forall e :: e in list ==> e.timer.handle != handle
    ensures Without(list, handle) == list
  {
    if list != [] {
      WithoutNothing(list[1..], handle);
    }
  }

  lemma BeforeAsymmetric(x: Entry, y: Entry)
    requires Near(x.expires, y.expires)
    ensures !(Before(x, y) && Before(y, x))
  {
    CompareFollowsRealTime(x.expires, y.expires);
  }

  lemma SameFirst(a: seq<Entry>, b: seq<Entry>, stamp: nat, base: nat)
    requires Ordered(a) && Ordered(b) && Bounded(a, stamp, base)
    requires multiset(a) == multiset(b) && a != []
    ensures b != [] && a[0] == b[0]
  {
    assert a[0] in multiset(a) && a[0] in multiset(b);
    assert b[0] in multiset(b) && b[0] in multiset(a);
    BeforeAsymmetric(a[0], b[0]);
  }

  lemma WithoutOne(list: seq<Entry>, k: nat, handle: nat)
    requires k < |list| && list[k].timer.handle == handle
    ensures Without(list, handle) == Without(list[..k] + list[k + 1..], handle)
  {
    var a, b := list[..k], list[k + 1..];
    WithoutSplit(a, list[k..], handle);
    WithoutSplit(a, b, handle);
    assert list == a + list[k..] && list[k..][1..] == b;
  }

  /** Only one arrangement of the same entries is ordered, so the list says nothing about the
      history that led to it. */
  lemma {:induction false} OrderedUnique(a: seq<Entry>, b: seq<Entry>, stamp: nat, base: nat)
    requires Ordered(a) && Ordered(b) && Bounded(a, stamp, base)
    requires multiset(a) == multiset(b)
    ensures a == b
  {
    if a == [] {
      assert |multiset(b)| == 0;
    } else {
      SameFirst(a, b, stamp, base);
      assert a == [a[0]] + a[1..] && b == [b[0]] + b[1..];
      assert multiset(a[1..]) == multiset(a) - multiset{a[0]};
      assert multiset(b[1..]) == multiset(b) - multiset{b[0]};
      assert Ordered(a[1..]) && Ordered(b[1..]) && Bounded(a[1..], stamp, base);
      OrderedUnique(a[1..], b[1..], stamp, base);
    }
  }

  // ----- whole runs

  datatype Op =
    | Add(timer: Timer)
    | Cancel(handle: nat)
    | Fire

  /** The list, and the number of insertions so far. */
  datatype State = State(list: seq<Entry>, stamp: nat)

  function Step(s: State, op: Op): State {
    match op
    case Add(timer) => State(Insert(s.list, Entry(timer, s.stamp)), s.stamp + 1)
    case Cancel(handle) => if handle == 0 then s else State(Without(s.list, handle), s.stamp)
    case Fire => if s.list == [] then s else State(s.list[1..], s.stamp)
  }

  function Run(s: State, ops: seq<Op>): State
    decreases |ops|
  {
    if ops == [] then s else Step(Run(s, ops[..|ops| - 1]), ops[|ops| - 1])
  }

  /** After any sequence of additions, cancellations and firings, the list is sorted, entries that
      compare equal are in the order of their insertion, and a firing takes an entry that nothing
      precedes. */
  lemma {:induction false} RunOrdered(ops: seq<Op>, base: nat)
    requires forall op :: op in ops && op.Add? ==> Within(op.timer.expires, base)
    ensures var s := Run(State([], 0), ops); Ordered(s.list) && Bounded(s.list, s.stamp, base)
    decreases |ops|
  {
    if ops != [] {
      var last := |ops| - 1;
      RunOrdered(ops[..last], base);
      var s := Run(State([], 0), ops[..last]);
      assert ops[last] in ops;
      match ops[last]
      case Add(timer) => InsertOrdered(s.list, Entry(timer, s.stamp), base);
      case Cancel(handle) => WithoutOrdered(s.list, handle, s.stamp, base);
      case Fire =>
    }
  }
}
