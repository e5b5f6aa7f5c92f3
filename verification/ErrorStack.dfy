/** The error stack of error_stack.c: 64 nodes, and two counters that go along with them. */
module ErrorStack {
  const SIZE: nat := 64

  /** fde_node_type_t; any value may come in through fde_push_node. */
  type NodeType = t: nat | t < 256
  const CONTEXT: NodeType := 0
  const STDLIB_ERROR: NodeType := 1
  const CONSISTENCY_FAILURE: NodeType := 2
  const DATA_CORRUPTION: NodeType := 3
  const RESOURCE_FAILURE: NodeType := 4
  const MESSAGE: NodeType := 5
  const META_ERROR: NodeType := 6
  const HTTP_ERROR: NodeType := 7

  datatype Node = Node(kind: NodeType, message: string, id: nat)

  predicate IsError(n: Node) {
    || n.kind == STDLIB_ERROR || n.kind == CONSISTENCY_FAILURE || n.kind == DATA_CORRUPTION
    || n.kind == RESOURCE_FAILURE || n.kind == HTTP_ERROR
  }

  predicate IsMeta(n: Node) {
    n.kind == META_ERROR
  }

  predicate IsKnown(kind: NodeType) {
    kind == CONTEXT || kind == MESSAGE || kind == META_ERROR || IsError(Node(kind, "", 0))
  }

  /** The bits of 1 << type on the machine, where C leaves them open: for types above 31. */
  type Shift = NodeType -> set<nat>

  function Bits(kind: NodeType, shift: Shift): set<nat> {
    if kind < 32 then {kind} else shift(kind)
  }

  /** Whether a node reports an error in the reporting, or else another error. */
  predicate Counts(n: Node, meta: bool) {
    if meta then IsMeta(n) else IsError(n)
  }

  /** How many nodes from one place to another do so. */
  function Tally(s: seq<Node>, from: nat, end: nat, meta: bool): (n: nat)
    requires from <= end <= |s|
    ensures n <= end - from
    decreases end
  {
    if from == end then 0 else Tally(s, from, end - 1, meta) + (if Counts(s[end - 1], meta) then 1 else 0)
  }

  /** The places of the errors, and of the errors in the reporting, by the numbers of their types. */
  function Places(s: seq<Node>, from: nat, end: nat, meta: bool): set<nat>
    requires from <= end <= |s|
  {
    set i: nat | from <= i < end && if meta then s[i].kind == 6 else 1 <= s[i].kind <= 4 || s[i].kind == 7
  }

  lemma PlacesMore(s: seq<Node>, from: nat, at: nat, meta: bool)
    requires from <= at < |s|
    ensures at !in Places(s, from, at, meta)
    ensures Places(s, from, at + 1, meta) == Places(s, from, at, meta) + if Counts(s[at], meta) then {at} else {}
  {
  }

  /** What is counted is how many there are. */
  lemma {:induction false} TallyIs(s: seq<Node>, from: nat, end: nat, meta: bool)
    requires from <= end <= |s|
    ensures Tally(s, from, end, meta) == |Places(s, from, end, meta)|
    decreases end
  {
    if from < end {
      TallyIs(s, from, end - 1, meta);
      PlacesMore(s, from, end - 1, meta);
    }
  }

  function Errors(s: seq<Node>): (n: nat)
    ensures n <= |s|
  {
    Tally(s, 0, |s|, false)
  }

  function Metas(s: seq<Node>): (n: nat)
    ensures n <= |s|
  {
    Tally(s, 0, |s|, true)
  }

  lemma {:induction false} TallySplit(s: seq<Node>, from: nat, mid: nat, end: nat, meta: bool)
    requires from <= mid <= end <= |s|
    ensures Tally(s, from, end, meta) == Tally(s, from, mid, meta) + Tally(s, mid, end, meta)
    decreases end
  {
    if mid < end {
      TallySplit(s, from, mid, end - 1, meta);
    }
  }

  lemma {:induction false} TallySame(s: seq<Node>, t: seq<Node>, end: nat, meta: bool)
    requires end <= |s| && end <= |t| && forall i :: 0 <= i < end ==> s[i] == t[i]
    ensures Tally(s, 0, end, meta) == Tally(t, 0, end, meta)
    decreases end
  {
    if end > 0 {
      TallySame(s, t, end - 1, meta);
    }
  }

  lemma {:induction false} CountsBound(s: seq<Node>, end: nat)
    requires end <= |s|
    ensures Tally(s, 0, end, false) + Tally(s, 0, end, true) <= end
    decreases end
  {
    if end > 0 {
      CountsBound(s, end - 1);
    }
  }

  /** The stack after a push; a node of an unknown type gets a complaint on top. */
  function Pushed(s: seq<Node>, n: Node): seq<Node>
    decreases if IsKnown(n.kind) then 0 else 1
  {
    if |s| >= SIZE then s
    else if IsKnown(n.kind) then s + [n]
    else Pushed(s + [n], Node(META_ERROR, "invalid node type", 0))
  }

  /** How many nodes a push fails to store. */
  function Rejections(s: seq<Node>, n: Node): nat {
    if |s| >= SIZE || (!IsKnown(n.kind) && |s| + 1 >= SIZE) then 1 else 0
  }

  lemma OneBit(bits: set<nat>, bit: nat)
    ensures bits * {bit} == {} <==> bit !in bits
  {
    if bit in bits {
      assert bit in bits * {bit};
    }
  }

  const INVALID_CONTEXT: Node := Node(META_ERROR, "pop_context called with invalid context", 0)
  const INVALID_TYPE: Node := Node(META_ERROR, "fde_get_next_error() returned node of invalid type", 0)

  /** What is to be popped: the context `context`, at `ptr` if that is not negative. */
  predicate Meant(n: Node, k: nat, context: nat, ptr: int) {
    n.kind == CONTEXT && n.id == context && (ptr < 0 || ptr == k)
  }

  /** A node that is taken for a context, and is none. */
  predicate Strange(n: Node, shift: Shift) {
    CONTEXT in Bits(n.kind, shift) && n.kind != CONTEXT
  }

  /** What the search for a context comes to. */
  datatype Search = None | Misled | Found(at: nat)

  /** The search, from the top down. */
  function FindContext(s: seq<Node>, context: nat, ptr: int, shift: Shift): (r: Search)
    ensures r.Found? ==> r.at < |s| && Meant(s[r.at], r.at, context, ptr)
  {
    FindBelow(s, |s|, context, ptr, shift)
  }

  /** The same, from the k-th node down. */
  function FindBelow(s: seq<Node>, k: nat, context: nat, ptr: int, shift: Shift): (r: Search)
    requires k <= |s|
    ensures r.Found? ==> r.at < k && Meant(s[r.at], r.at, context, ptr)
    ensures !r.Misled? ==>
              forall j :: (if r.Found? then r.at else -1) < j < k ==>
                            !Meant(s[j], j, context, ptr) && !Strange(s[j], shift)
  {
    if k == 0 then None
    else if Meant(s[k - 1], k - 1, context, ptr) then Found(k - 1)
    else if Strange(s[k - 1], shift) then Misled
    else FindBelow(s, k - 1, context, ptr, shift)
  }

  /** Going down from the k-th node, the j-th is the first that is taken for a context and is none, and the one
      that is meant has not come before. */
  ghost predicate FirstStrange(s: seq<Node>, j: nat, k: nat, context: nat, ptr: int, shift: Shift) {
    && j < k <= |s| && Strange(s[j], shift)
    && forall i :: j < i < k ==> !Meant(s[i], i, context, ptr) && !Strange(s[i], shift)
  }

  /** When it is misled: by the first node that is taken for a context and is none, if the one that is meant
      has not come before. */
  lemma {:induction false} MisledBy(s: seq<Node>, k: nat, context: nat, ptr: int, shift: Shift) returns (j: nat)
    requires k <= |s| && FindBelow(s, k, context, ptr, shift).Misled?
    ensures FirstStrange(s, j, k, context, ptr, shift)
  {
    if Strange(s[k - 1], shift) {
      j := k - 1;
    } else {
      j := MisledBy(s, k - 1, context, ptr, shift);
    }
  }

  function Complaint(r: Search): Node {
    if r == Misled then INVALID_TYPE else INVALID_CONTEXT
  }

  class Stack {
    const nodes: array<Node>
    const shift: Shift
    var top: nat
    var errors: int             // 32 bits, as is the next one
    var metaErrors: int
    var full: bool
    ghost var metas: int        // what metaErrors would be with more bits
    ghost var rejected: nat     // nodes that found no room, ever

    function Contents(): seq<Node>
      requires top <= nodes.Length
      reads this, nodes
    {
      nodes[..top]
    }

    /** The counters go along with the nodes; what was rejected counts as an error in the reporting. */
    ghost predicate Valid()
      reads this, nodes
    {
      && nodes.Length == SIZE && top <= SIZE
      && errors == Errors(Contents())
      && metas == Metas(Contents()) + rejected && Wrapped()
    }

    ghost predicate Wrapped()
      reads this
    {
      metaErrors == metas % 0x1_0000_0000
    }

    constructor (shift: Shift)
      ensures Valid() && fresh(nodes) && Contents() == [] && rejected == 0 && this.shift == shift
    {
      this.shift := shift;
      nodes := new Node[SIZE](_ => Node(0, "", 0));
      top, errors, metaErrors, full, metas, rejected := 0, 0, 0, false, 0, 0;
    }

    /** internal_push. */
    method Push(n: Node) returns (ok: bool)
      requires Valid()
      modifies this, nodes
      ensures Valid() && Contents() == Pushed(old(Contents()), n)
      ensures rejected == old(rejected) + Rejections(old(Contents()), n)
      ensures ok <==> old(top) < 64 && n.kind <= 7
      ensures Contents() == old(Contents()) + (if old(top) >= 64 then [] else if old(top) == 63 || n.kind <= 7 then [n]
                                               else [n, Node(6, "invalid node type", 0)])
      ensures rejected == old(rejected) + if old(top) >= 64 || (old(top) == 63 && n.kind > 7) then 1 else 0
      ensures full == (old(full) || rejected > old(rejected))
      decreases if IsKnown(n.kind) then 0 else 1
    {
      hide Errors, Metas;
      if top >= SIZE {
        CountMeta();
        full, rejected := true, rejected + 1;
        return false;
      }
      Store(n);
      if !IsKnown(n.kind) {
        var _ := Push(Node(META_ERROR, "invalid node type", 0));
        return false;
      }
      ok := true;
    }

    method Store(n: Node)
      requires Valid() && top < SIZE
      modifies this, nodes
      ensures Valid() && Contents() == old(Contents()) + [n] && rejected == old(rejected) && full == old(full)
    {
      ghost var s := Contents();
      nodes[top] := n;
      top := top + 1;
      Counted(s, n, nodes[..top]);
      Count(n);
    }

    method CountMeta()
      requires Wrapped()
      modifies `metaErrors, `metas
      ensures Wrapped() && metas == old(metas) + 1
    {
      metaErrors, metas := (metaErrors + 1) % 0x1_0000_0000, metas + 1;
    }

    method Count(n: Node)
      requires Wrapped()
      modifies `errors, `metaErrors, `metas
      ensures Wrapped() && errors == old(errors) + (if IsError(n) then 1 else 0)
      ensures metas == old(metas) + (if IsMeta(n) then 1 else 0)
    {
      if IsError(n) {
        errors := errors + 1;
      } else if n.kind == META_ERROR {
        CountMeta();
      }
    }

    /** fde_errors. */
    function AllErrors(): int
      reads this
    {
      (errors + metaErrors) % 0x1_0000_0000
    }

    /** fde_get_next_error: the next node of one of the types, going down from `last`; -1 if none. */
    method NextError(types: set<nat>, last: nat) returns (k: int)
      requires Valid() && last <= top
      ensures -1 <= k < last && (k >= 0 ==> Bits(nodes[k].kind, shift) * types != {})
      ensures forall j :: k < j < last ==> Bits(nodes[j].kind, shift) * types == {}
    {
      k := last;
      while true
        invariant 0 <= k <= last && forall j :: k <= j < last ==> Bits(nodes[j].kind, shift) * types == {}
        decreases k
      {
        if k == 0 {
          return -1;
        }
        k := k - 1;
        if Bits(nodes[k].kind, shift) * types != {} {
          return;
        }
      }
    }

    /** The loop of fde_pop_context over the contexts, from the top down. */
    method Find(context: nat, ptr: int) returns (r: Search)
      requires Valid()
      ensures r == FindContext(Contents(), context, ptr, shift)
    {
      ghost var s := Contents();
      var k: int := top;
      while true
        invariant 0 <= k <= top && FindBelow(s, k, context, ptr, shift) == FindContext(s, context, ptr, shift)
        decreases k
      {
        var last := k;
        k := NextError({CONTEXT}, last);
        Skipped(last, k);
        SkipTo(s, last, k + 1, context, ptr, shift);
        if k < 0 {
          return None;
        }
        if nodes[k].kind != CONTEXT {
          return Misled;
        }
        if nodes[k].id == context && (ptr < 0 || ptr == k) {
          return Found(k);
        }
      }
    }

    lemma Skipped(last: nat, k: int)
      requires Valid() && -1 <= k < last <= top
      requires forall j :: k < j < last ==> Bits(nodes[j].kind, shift) * {CONTEXT} == {}
      requires k >= 0 ==> Bits(nodes[k].kind, shift) * {CONTEXT} != {}
      ensures forall j :: k < j < last ==> nodes[j].kind != CONTEXT && !Strange(nodes[j], shift)
      ensures k >= 0 ==> nodes[k].kind == CONTEXT || Strange(nodes[k], shift)
    {
      forall j | k <= j < last && j >= 0
        ensures Bits(nodes[j].kind, shift) * {CONTEXT} == {} <==> CONTEXT !in Bits(nodes[j].kind, shift)
      {
        OneBit(Bits(nodes[j].kind, shift), CONTEXT);
      }
    }

    /** The nodes from the k-th on go, and are not counted any more. */
    method DropTo(k: nat)
      requires Valid() && k <= top
      modifies `top, `errors, `metaErrors, `metas
      ensures Valid() && Contents() == old(Contents())[..k]
    {
      ghost var s := Contents();
      UncountFrom(k, s);
      top := k;
      assert nodes[..top] == s[..k];
      WithoutTop(s, k, nodes[..top]);
    }

    method UncountFrom(k: nat, ghost s: seq<Node>)
      requires k <= top == |s| <= nodes.Length && (forall i :: 0 <= i < top ==> nodes[i] == s[i]) && Wrapped()
      modifies `errors, `metaErrors, `metas
      ensures errors == old(errors) - Tally(s, k, |s|, false)
      ensures metas == old(metas) - Tally(s, k, |s|, true) && Wrapped()
    {
      var p := k;
      while p < top
        invariant k <= p <= top && Wrapped()
        invariant errors == old(errors) - Tally(s, k, p, false) && metas == old(metas) - Tally(s, k, p, true)
      {
        Uncount(nodes[p]);
        p := p + 1;
      }
    }

    method Uncount(n: Node)
      requires Wrapped()
      modifies `errors, `metaErrors, `metas
      ensures Wrapped() && errors == old(errors) - (if IsError(n) then 1 else 0)
      ensures metas == old(metas) - (if IsMeta(n) then 1 else 0)
    {
      if IsError(n) {
        errors := errors - 1;
      } else if n.kind == META_ERROR {
        metaErrors, metas := (metaErrors - 1) % 0x1_0000_0000, metas - 1;
      }
    }

    /** fde_pop_context; a negative `ptr` is the null pointer. */
    method Pop(context: nat, ptr: int) returns (ok: bool)
      requires Valid()
      modifies this, nodes
      ensures Valid() && ok == FindContext(old(Contents()), context, ptr, shift).Found?
      ensures ok ==> Contents() == old(Contents())[..FindContext(old(Contents()), context, ptr, shift).at]
                     && rejected == old(rejected) && nodes[..] == old(nodes[..])
      ensures !ok ==> var complaint := Complaint(FindContext(old(Contents()), context, ptr, shift));
                      && Contents() == Pushed(old(Contents()), complaint)
                      && rejected == old(rejected) + Rejections(old(Contents()), complaint)
    {
      var r := Find(context, ptr);
      if r.Found? {
        DropTo(r.at);
        return true;
      }
      ok := Push(Complaint(r));
      ok := false;
    }

    /** fde_reset_context: everything above the context goes, the context stays. */
    method Reset(context: nat, ptr: int) returns (ok: bool)
      requires Valid()
      modifies this, nodes
      ensures Valid() && ok == FindContext(old(Contents()), context, ptr, shift).Found?
      ensures ok ==> Contents() == old(Contents())[..FindContext(old(Contents()), context, ptr, shift).at + 1]
                     && rejected == old(rejected)
      ensures !ok ==> var complaint := Complaint(FindContext(old(Contents()), context, ptr, shift));
                      && Contents() == Pushed(old(Contents()), complaint)
                      && rejected == old(rejected) + Rejections(old(Contents()), complaint)
    {
      ghost var s := Contents();
      ok := Pop(context, ptr);
      if ok {
        Expose(s);
      }
    }

    /** The node that was popped last comes back. */
    method Expose(ghost s: seq<Node>)
      requires Valid() && top < |s| <= SIZE && nodes[..|s|] == s && s[top].kind == CONTEXT
      modifies `top
      ensures Valid() && Contents() == s[..old(top) + 1]
    {
      Counted(nodes[..top], nodes[top], nodes[..top + 1]);
      top := top + 1;
    }

    /** fde_push_context: where the node is, or -1 if there is no room. */
    method PushContext(context: nat) returns (ptr: int)
      requires Valid()
      modifies this, nodes
      ensures Valid() && Contents() == Pushed(old(Contents()), Node(CONTEXT, "", context))
      ensures ptr == if old(top) < SIZE then old(top) else -1
      ensures rejected == old(rejected) + if ptr < 0 then 1 else 0
    {
      ptr := top;
      var ok := Push(Node(CONTEXT, "", context));
      if !ok {
        ptr := -1;
      }
    }

    /** fde_safe_pop_context: nothing is popped while errors are counted. */
    method SafePop(context: nat, ptr: int) returns (ok: bool)
      requires Valid()
      modifies this, nodes
      ensures Valid() && ok == (old(AllErrors()) == 0 && FindContext(old(Contents()), context, ptr, shift).Found?)
      ensures ok ==> Contents() == old(Contents())[..FindContext(old(Contents()), context, ptr, shift).at]
                     && rejected == old(rejected)
      ensures old(AllErrors()) != 0 ==> Contents() == old(Contents()) && rejected == old(rejected)
      ensures old(rejected) <= rejected
    {
      if AllErrors() != 0 {
        return false;
      }
      ok := Pop(context, ptr);
    }
  }

  /** Whatever has been pushed on top of a context, popping it by its pointer brings back the stack from
      before it was pushed, and with it the counts of errors; unless a node on top of it is taken for a
      context, which no known type is. */
  lemma {:induction false} MatchingPop(s: seq<Node>, context: nat, above: seq<Node>, shift: Shift)
    ensures var t := s + [Node(CONTEXT, "", context)] + above;
            var r := FindContext(t, context, |s|, shift);
            && (r == Found(|s|) <==> forall i :: 0 <= i < |above| ==> !Strange(above[i], shift))
            && (r == Found(|s|) || r == Misled)
            && t[..|s|] == s && Errors(t[..|s|]) == Errors(s) && Metas(t[..|s|]) == Metas(s)
  {
    hide Errors, Metas, FindBelow;
    var t := s + [Node(CONTEXT, "", context)] + above;
    assert t[..|s|] == s && t[|s|] == Node(CONTEXT, "", context);
    MatchingBelow(t, |s|, |t|, context, shift);
    forall i | 0 <= i < |above| ensures above[i] == t[|s| + 1 + i] {
    }
    assert forall j :: |s| < j < |t| ==> t[j] == above[j - |s| - 1];
  }

  lemma {:induction false} MatchingBelow(t: seq<Node>, at: nat, k: nat, context: nat, shift: Shift)
    requires at < k <= |t| && Meant(t[at], at, context, at)
    ensures FindBelow(t, k, context, at, shift)
            == if forall j :: at < j < k ==> !Strange(t[j], shift) then Found(at) else Misled
    decreases k
  {
    if at < k - 1 {
      MatchingBelow(t, at, k - 1, context, shift);
    }
  }

  lemma KnownIsNotStrange(n: Node, shift: Shift)
    requires IsKnown(n.kind)
    ensures !Strange(n, shift)
  {
  }

  /** So with nodes of known types on top of it, a context is always found by its pointer. */
  lemma KnownAbove(s: seq<Node>, context: nat, above: seq<Node>, shift: Shift)
    requires forall i :: 0 <= i < |above| ==> IsKnown(above[i].kind)
    ensures FindContext(s + [Node(CONTEXT, "", context)] + above, context, |s|, shift) == Found(|s|)
  {
    forall i | 0 <= i < |above| ensures !Strange(above[i], shift) {
      KnownIsNotStrange(above[i], shift);
    }
    MatchingPop(s, context, above, shift);
  }

  /** Once a push has been rejected, nothing takes the counted error away: fde_errors is not zero again,
      until 32 bits have gone around. */
  lemma ErrorsStay(s: seq<Node>, rejected: nat)
    requires |s| <= SIZE && 0 < rejected && rejected + SIZE < 0x1_0000_0000
    ensures (Errors(s) + (Metas(s) + rejected) % 0x1_0000_0000) % 0x1_0000_0000 != 0
  {
    CountsBound(s, |s|);
    Small(Metas(s) + rejected);
    Small(Errors(s) + Metas(s) + rejected);
  }

  lemma Small(n: nat)
    requires n < 0x1_0000_0000
    ensures n % 0x1_0000_0000 == n
  {
  }

  /** What is counted is the errors, the complaints and the rejections together, modulo 2^32. So safe pops
      are refused if and only if these do not add up to a multiple of 2^32. */
  lemma CountedTogether(stack: Stack)
    requires stack.Valid()
    ensures var s := stack.Contents(); stack.AllErrors() == (Errors(s) + Metas(s) + stack.rejected) % 0x1_0000_0000
  {
    AddedBefore(stack.errors, stack.metas);
  }

  lemma AddedBefore(a: int, b: int)
    ensures (a + b % 0x1_0000_0000) % 0x1_0000_0000 == (a + b) % 0x1_0000_0000
  {
  }

  /** A function that pushes a context, lets others push, pop and reset whatever they like but this
      context, and pops it by its pointer. `above` is what they leave on top of it. If none of that is taken
      for a context, stack and counts are what they were before, but for what was rejected meanwhile. */
  method Bracket(stack: Stack, context: nat) returns (ok: bool, ghost above: seq<Node>)
    requires stack.Valid() && stack.top < SIZE
    modifies stack, stack.nodes
    ensures stack.Valid()
    ensures ok <==> forall i :: 0 <= i < |above| ==> !Strange(above[i], stack.shift)
    ensures ok ==> stack.Contents() == old(stack.Contents()) && stack.errors == old(stack.errors)
                   && stack.metas - stack.rejected == old(stack.metas - stack.rejected)
  {
    hide Errors, Metas, Tally, FindBelow;
    ghost var s := stack.Contents();
    var ptr := stack.PushContext(context);
    ghost var t := stack.Contents();
    Between(stack, ptr);
    above := stack.Contents()[|t|..];
    assert stack.Contents() == t + above;
    MatchingPop(s, context, above, stack.shift);
    ok := stack.Pop(context, ptr);
  }

  /** What is done meanwhile. */
  method Between(stack: Stack, ptr: nat)
    requires stack.Valid() && ptr < stack.top
    modifies stack, stack.nodes
    ensures stack.Valid() && old(stack.Contents()[..ptr + 1]) <= stack.Contents()
  {
    ghost var t := stack.Contents()[..ptr + 1];
    var n: nat := *;
    while n > 0
      invariant stack.Valid() && t <= stack.Contents()
    {
      OneMeanwhile(stack, ptr, t);
      n := n - 1;
    }
  }

  /** A push, or a pop or reset that leaves the context at `at`. */
  method OneMeanwhile(stack: Stack, at: nat, ghost t: seq<Node>)
    requires stack.Valid() && |t| == at + 1 && t <= stack.Contents()
    modifies stack, stack.nodes
    ensures stack.Valid() && t <= stack.Contents()
  {
    var which: int, kind: NodeType, message: string, id: nat, ptr: int := *, *, *, *, *;
    var ok;
    if which == 0 {
      PushedMore(stack.Contents(), Node(kind, message, id));
      ok := stack.Push(Node(kind, message, id));
    } else {
      var r := stack.Find(id, ptr);
      PushedMore(stack.Contents(), Complaint(r));
      if which == 1 && (!r.Found? || r.at > at) {
        ok := stack.Pop(id, ptr);
      } else if which == 2 && (!r.Found? || r.at >= at) {
        ok := stack.Reset(id, ptr);
      }
    }
  }

  lemma {:induction false} PushedMore(s: seq<Node>, n: Node)
    ensures s <= Pushed(s, n)
  {
  }

  /** Any run: the counters always go along with the stack. `before` is whether a push was rejected at
      some point; from there on no safe pop succeeds. */
  method Run(stack: Stack, steps: nat) returns (safePops: nat)
    requires stack.Valid()
    modifies stack, stack.nodes
    ensures stack.Valid() && old(stack.rejected) <= stack.rejected
    ensures old(stack.rejected) > 0 && stack.rejected + SIZE < 0x1_0000_0000 ==> safePops == 0
  {
    safePops := 0;
    var n := steps;
    while n > 0
      invariant stack.Valid() && old(stack.rejected) <= stack.rejected
      invariant old(stack.rejected) > 0 && stack.rejected + SIZE < 0x1_0000_0000 ==> safePops == 0
    {
      var safe := AnyStep(stack);
      safePops := safePops + if safe then 1 else 0;
      n := n - 1;
    }
  }

  method AnyStep(stack: Stack) returns (safe: bool)
    requires stack.Valid()
    modifies stack, stack.nodes
    ensures stack.Valid() && old(stack.rejected) <= stack.rejected
    ensures safe ==> !(0 < old(stack.rejected) && stack.rejected + SIZE < 0x1_0000_0000)
  {
    var which: int, kind: NodeType, message: string, id: nat, ptr: int := *, *, *, *, *;
    var ok;
    safe := false;
    if which == 0 {
      ok := stack.Push(Node(kind, message, id));
    } else if which == 1 {
      ok := stack.Pop(id, ptr);
    } else if which == 2 {
      ok := stack.Reset(id, ptr);
    } else {
      safe := SafeStep(stack, id, ptr);
    }
  }

  lemma NotPopped(stack: Stack)
    requires stack.Valid() && 0 < stack.rejected && stack.rejected + SIZE < 0x1_0000_0000
    ensures stack.AllErrors() != 0
  {
    hide Errors, Metas;
    ErrorsStay(stack.Contents(), stack.rejected);
  }

  method SafeStep(stack: Stack, context: nat, ptr: int) returns (ok: bool)
    requires stack.Valid()
    modifies stack, stack.nodes
    ensures stack.Valid() && old(stack.rejected) <= stack.rejected
    ensures ok ==> !(0 < old(stack.rejected) && stack.rejected + SIZE < 0x1_0000_0000)
  {
    if stack.rejected > 0 && stack.rejected + SIZE < 0x1_0000_0000 {
      NotPopped(stack);
    }
    ok := stack.SafePop(context, ptr);
  }

  /** No context is found among nodes that are none. */
  lemma {:induction false} SkipTo(s: seq<Node>, last: nat, k: nat, context: nat, ptr: int, shift: Shift)
    requires k <= last <= |s| && forall j :: k <= j < last ==> s[j].kind != CONTEXT && !Strange(s[j], shift)
    ensures FindBelow(s, last, context, ptr, shift) == FindBelow(s, k, context, ptr, shift)
    decreases last
  {
    if k < last {
      SkipTo(s, last - 1, k, context, ptr, shift);
    }
  }

  lemma WithoutTop(s: seq<Node>, k: nat, t: seq<Node>)
    requires k == |t| <= |s| && t == s[..k]
    ensures Errors(t) == Errors(s) - Tally(s, k, |s|, false) && Metas(t) == Metas(s) - Tally(s, k, |s|, true)
  {
    TallySplit(s, 0, k, |s|, false);
    TallySplit(s, 0, k, |s|, true);
    TallySame(s, t, k, false);
    TallySame(s, t, k, true);
  }

  lemma Counted(s: seq<Node>, n: Node, t: seq<Node>)
    requires |t| == |s| + 1 && t[..|s|] == s && t[|s|] == n
    ensures t == s + [n]
    ensures Errors(t) == Errors(s) + (if IsError(n) then 1 else 0)
    ensures Metas(t) == Metas(s) + (if IsMeta(n) then 1 else 0)
  {
    TallySame(s, t, |s|, false);
    TallySame(s, t, |s|, true);
  }
}
