/** The lock-free free list: `add`, `try_get` and `add_knowing_refcount_is_zero`, one atomic operation
    a step, any number of threads in any interleaving (sequentially consistent). */
module FreeList {
  import opened Options

  /** Nodes are numbered; `None` is the null pointer. */
  type Node = nat
  type Link = Option<Node>

  const SHOULD_BE_ON_FREELIST := 0x8000_0000
  const WORD := 0x1_0000_0000

  /** What a thread does once `add_knowing_refcount_is_zero` returns: `add` returns, `try_get` goes
      round its loop with the head it read last. */
  datatype Then = Return | Resume(head: Link)

  /** The next atomic operation of a thread, with its local variables. */
  datatype Pc =
    | Idle
    | LoadHead
    | LoadRefs(node: Node)
    | IncRefs(node: Node, seen: nat)
    | LoadNext(node: Node)
    | PopHead(node: Node, link: Link)
    | Release(node: Node)
    | DropRef(node: Node, link: Link)
    | SetFlag(node: Node)
    | AddLoadHead(node: Node, after: Then)
    | StoreNext(node: Node, link: Link, after: Then)
    | StoreRefs(node: Node, link: Link, after: Then)
    | PushHead(node: Node, link: Link, after: Then)
    | GiveBack(node: Node, link: Link, after: Then)
  {
    /** The thread is inside `add_knowing_refcount_is_zero`. */
    predicate Adding() {
      AddLoadHead? || StoreNext? || StoreRefs? || PushHead? || GiveBack?
    }
  }

  /** `held` counts how often each node is in the hands of a caller. */
  datatype State = State(head: Link, refs: seq<nat>, next: seq<Link>, pcs: seq<Pc>, held: multiset<Node>)

  datatype Action = StartGet(thread: nat) | StartAdd(thread: nat, node: Node) | Step(thread: nat)

  predicate Enabled(s: State, a: Action) {
    && a.thread < |s.pcs|
    && match a
       case StartGet(t) => s.pcs[t].Idle?
       case StartAdd(t, n) => s.pcs[t].Idle? && n in s.held
       case Step(t) => !s.pcs[t].Idle?
  }

  /** Top of `try_get`'s loop. */
  function Loop(head: Link): Pc {
    if head.None? then Idle else LoadRefs(head.value)
  }

  function Continue(after: Then): Pc {
    if after.Return? then Idle else Loop(after.head)
  }

  /** The node a thread is working on. */
  function NodeOf(pc: Pc): Link {
    if pc.Idle? || pc.LoadHead? then None else Some(pc.node)
  }

  predicate LinkOk(n: nat, l: Link) {
    l.Some? ==> l.value < n
  }

  predicate PcOk(n: nat, pc: Pc) {
    && LinkOk(n, NodeOf(pc))
    && (pc.PopHead? || pc.DropRef? || pc.StoreNext? || pc.StoreRefs? || pc.PushHead? || pc.GiveBack? ==>
          LinkOk(n, pc.link))
    && (pc.Adding() && pc.after.Resume? ==> LinkOk(n, pc.after.head))
  }

  predicate WellFormed(s: State) {
    && |s.next| == |s.refs|
    && LinkOk(|s.refs|, s.head)
    && (forall i :: 0 <= i < |s.next| ==> LinkOk(|s.refs|, s.next[i]))
    && (forall i :: 0 <= i < |s.pcs| ==> PcOk(|s.refs|, s.pcs[i]))
    && (forall n :: n in s.held ==> n < |s.refs|)
  }

  function At(s: State, t: nat, pc: Pc): State
    requires t < |s.pcs|
  {
    s.(pcs := s.pcs[t := pc])
  }

  function Next(s: State, a: Action): State
    requires WellFormed(s) && Enabled(s, a)
  {
    match a
    case StartGet(t) => At(s, t, LoadHead)
    case StartAdd(t, n) => At(s.(held := s.held - multiset{n}), t, SetFlag(n))
    case Step(t) => if s.pcs[t].Adding() || s.pcs[t].SetFlag? then AddStep(s, t) else GetStep(s, t)
  }

  /** `try_get`. */
  function GetStep(s: State, t: nat): State
    requires WellFormed(s) && t < |s.pcs|
  {
    assert PcOk(|s.refs|, s.pcs[t]);
    match s.pcs[t]
    case LoadHead => At(s, t, Loop(s.head))
    case LoadRefs(h) =>
      if s.refs[h] % SHOULD_BE_ON_FREELIST == 0 then At(s, t, LoadHead) else At(s, t, IncRefs(h, s.refs[h]))
    case IncRefs(h, seen) =>
      if s.refs[h] == seen then At(SetRefs(s, h, seen + 1), t, LoadNext(h)) else At(s, t, LoadHead)
    case LoadNext(h) => At(s, t, PopHead(h, s.next[h]))
    case PopHead(h, next) =>
      if s.head == Some(h) then At(s.(head := next), t, Release(h)) else At(s, t, DropRef(h, s.head))
    case Release(h) =>
      At(SubRefs(s, h, 2).(held := s.held + multiset{h}), t, Idle)
    case DropRef(n, h) =>
      At(SubRefs(s, n, 1), t,
         if s.refs[n] == SHOULD_BE_ON_FREELIST + 1 then AddLoadHead(n, Resume(h)) else Loop(h))
    case _ => s
  }

  /** `add`, and from its second operation on `add_knowing_refcount_is_zero`. */
  function AddStep(s: State, t: nat): State
    requires WellFormed(s) && t < |s.pcs|
  {
    assert PcOk(|s.refs|, s.pcs[t]);
    match s.pcs[t]
    case SetFlag(n) =>
      At(SetRefs(s, n, s.refs[n] + SHOULD_BE_ON_FREELIST), t, if s.refs[n] == 0 then AddLoadHead(n, Return) else Idle)
    case AddLoadHead(n, k) => At(s, t, StoreNext(n, s.head, k))
    case StoreNext(n, h, k) => At(s.(next := s.next[n := h]), t, StoreRefs(n, h, k))
    case StoreRefs(n, h, k) => At(SetRefs(s, n, 1), t, PushHead(n, h, k))
    case PushHead(n, h, k) =>
      if s.head == h then At(s.(head := Some(n)), t, Continue(k)) else At(s, t, GiveBack(n, s.head, k))
    case GiveBack(n, h, k) =>
      At(SetRefs(s, n, s.refs[n] + SHOULD_BE_ON_FREELIST - 1), t,
         if s.refs[n] == 1 then StoreNext(n, h, k) else Continue(k))
    case _ => s
  }

  /** A store to a 32-bit reference word. */
  function SetRefs(s: State, n: Node, v: int): State
    requires n < |s.refs|
  {
    s.(refs := s.refs[n := v % WORD])
  }

  /** `fetch_sub`. */
  function SubRefs(s: State, n: Node, d: int): State
    requires n < |s.refs|
  {
    SetRefs(s, n, s.refs[n] as int - d)
  }

  // ----- what each thread contributes to a node's bookkeeping

  /** Ref: references counted in the node's refcount. Open: the thread is responsible for the node and its
      flag is clear. Flagged: the thread is about to put the node back and its flag is set. */
  datatype Tally = Ref | Open | Flagged

  function Weight(k: Tally, pc: Pc, n: Node): nat {
    if NodeOf(pc) != Some(n) then 0
    else match k
      case Ref =>
        if pc.Release? then 2
        else if pc.LoadNext? || pc.PopHead? || pc.DropRef? || pc.PushHead? || pc.GiveBack? then 1 else 0
      case Open => if pc.Release? || pc.SetFlag? || pc.PushHead? || pc.GiveBack? then 1 else 0
      case Flagged => if pc.AddLoadHead? || pc.StoreNext? || pc.StoreRefs? then 1 else 0
  }

  function Sum(k: Tally, pcs: seq<Pc>, n: Node): nat {
    if pcs == [] then 0 else Weight(k, pcs[0], n) + Sum(k, pcs[1..], n)
  }

  lemma {:induction false} SumUpdate(k: Tally, pcs: seq<Pc>, t: nat, pc: Pc, n: Node)
    requires t < |pcs|
    ensures Sum(k, pcs[t := pc], n) == Sum(k, pcs, n) - Weight(k, pcs[t], n) + Weight(k, pc, n)
    ensures Sum(k, pcs, n) >= Weight(k, pcs[t], n)
  {
    if t == 0 {
      assert pcs[t := pc][1..] == pcs[1..];
    } else {
      assert pcs[t := pc][1..] == pcs[1..][t - 1 := pc];
      SumUpdate(k, pcs[1..], t - 1, pc, n);
    }
  }

  /** No more references than threads, one more if some thread is taking the node. */
  lemma {:induction false} SumBound(pcs: seq<Pc>, n: Node)
    ensures Sum(Ref, pcs, n) <= |pcs| + Sum(Open, pcs, n)
  {
    if pcs != [] {
      SumBound(pcs[1..], n);
    }
  }

  // ----- the invariant

  /** The list, first node first, as the pointers spell it. */
  ghost predicate IsList(s: State, list: seq<Node>) {
    && (forall j :: 0 <= j < |list| ==> list[j] < |s.next|)
    && (forall i, j :: 0 <= i < j < |list| ==> list[i] != list[j])
    && s.head == (if list == [] then None else Some(list[0]))
    && forall j :: 0 <= j < |list| ==> LinkAt(s.next, list, j)
  }

  predicate LinkAt(next: seq<Link>, list: seq<Node>, j: nat)
    requires j < |list| && list[j] < |next|
  {
    next[list[j]] == if j + 1 < |list| then Some(list[j + 1]) else None
  }

  function B(b: bool): nat {
    if b then 1 else 0
  }

  /** Where a node is, and what its reference word says: at most one of the list, a caller's hands and a
      responsible thread has it; its refcount is list membership plus live references; its flag is set
      exactly when none of the three keeps it clear; and a node nobody has is still referenced, so that
      whoever drops the last reference will put it back. */
  ghost predicate NodeOk(s: State, list: seq<Node>, n: Node)
    requires n < |s.refs|
  {
    var refs, open, flagged := Sum(Ref, s.pcs, n), Sum(Open, s.pcs, n), Sum(Flagged, s.pcs, n);
    var places := B(n in list) + s.held[n] + open;
    && places + flagged <= 1
    && s.refs[n] == B(n in list) + refs + (if places == 0 then SHOULD_BE_ON_FREELIST else 0)
    && (flagged == 1 ==> refs == 0)
    && (places + flagged == 0 ==> refs >= 1)
  }

  /** A thread about to pop still knows the true successor; one about to push has linked its node; one about
      to count a reference has seen the count non-zero. */
  predicate LocalOk(s: State, pc: Pc)
    requires WellFormed(s) && PcOk(|s.refs|, pc)
  {
    match pc
    case IncRefs(_, seen) => seen % SHOULD_BE_ON_FREELIST != 0
    case PopHead(h, next) => s.next[h] == next
    case StoreRefs(n, h, _) => s.next[n] == h
    case PushHead(n, h, _) => s.next[n] == h
    case _ => true
  }

  ghost predicate Inv(s: State, list: seq<Node>) {
    && WellFormed(s)
    && |s.pcs| + 3 < SHOULD_BE_ON_FREELIST
    && IsList(s, list)
    && (forall n: Node :: n < |s.refs| ==> NodeOk(s, list, n))
    && (forall t :: 0 <= t < |s.pcs| ==> LocalOk(s, s.pcs[t]))
  }

  /** The list after a step: only the two successful exchanges of the head change it. */
  ghost function ListAfter(s: State, a: Action, list: seq<Node>): seq<Node>
    requires WellFormed(s) && Enabled(s, a)
  {
    if !a.Step? then list
    else match s.pcs[a.thread]
      case PopHead(h, _) => if s.head == Some(h) && list != [] then list[1..] else list
      case PushHead(n, h, _) => if s.head == h then [n] + list else list
      case _ => list
  }

  // ----- every step keeps the invariant

  /** No ABA: when the exchange in `try_get` succeeds, the node is the first of the list and the value it
      installs is the node's true successor. The should-be-on-list flag is clear at that moment; that it stays
      clear until the references are dropped is `ReleaseIsClear`. */
  lemma PopIsExact(s: State, t: nat, list: seq<Node>)
    requires Inv(s, list) && t < |s.pcs| && s.pcs[t].PopHead? && s.head == Some(s.pcs[t].node)
    ensures list != [] && list[0] == s.pcs[t].node
    ensures s.pcs[t].link == if |list| > 1 then Some(list[1]) else None
    ensures s.refs[list[0]] < SHOULD_BE_ON_FREELIST
  {
    assert LocalOk(s, s.pcs[t]);
    assert LinkAt(s.next, list, 0);
    assert NodeOk(s, list, list[0]);
    SumBound(s.pcs, list[0]);
  }

  /** A thread that writes a node's next pointer is alone with it: nobody references it. */
  lemma WriterAlone(s: State, t: nat, u: nat, list: seq<Node>)
    requires Inv(s, list) && t < |s.pcs| && u < |s.pcs| && t != u
    requires s.pcs[t].StoreNext?
    ensures Weight(Ref, s.pcs[u], s.pcs[t].node) == 0
    ensures Weight(Flagged, s.pcs[u], s.pcs[t].node) == 0
    ensures s.pcs[t].node !in list
  {
    var n := s.pcs[t].node;
    assert NodeOk(s, list, n);
    SumTwo(Flagged, s.pcs, t, u, n);
    SumTwo(Ref, s.pcs, t, u, n);
  }

  lemma {:induction false} SumTwo(k: Tally, pcs: seq<Pc>, t: nat, u: nat, n: Node)
    requires t < |pcs| && u < |pcs| && t != u
    ensures Sum(k, pcs, n) >= Weight(k, pcs[t], n) + Weight(k, pcs[u], n)
  {
    if t == 0 {
      SumUpdate(k, pcs[1..], u - 1, Idle, n);
    } else if u == 0 {
      SumUpdate(k, pcs[1..], t - 1, Idle, n);
    } else {
      SumTwo(k, pcs[1..], t - 1, u - 1, n);
    }
  }

  /** A step moves one thread and keeps every pointer in range. */
  ghost predicate Moves(s: State, t: nat, s': State) {
    && t < |s.pcs| && |s'.refs| == |s.refs| && |s'.next| == |s.next|
    && LinkOk(|s.refs|, s'.head)
    && |s'.pcs| == |s.pcs| && s'.pcs == s.pcs[t := s'.pcs[t]]
    && PcOk(|s.refs|, s'.pcs[t])
  }

  lemma GetMoves(s: State, t: nat)
    requires WellFormed(s) && t < |s.pcs|
    ensures Moves(s, t, GetStep(s, t))
  {
    assert PcOk(|s.refs|, s.pcs[t]);
    if s.pcs[t].LoadNext? {
      assert LinkOk(|s.refs|, s.next[s.pcs[t].node]);
    }
  }

  lemma AddMoves(s: State, t: nat)
    requires WellFormed(s) && t < |s.pcs|
    ensures Moves(s, t, AddStep(s, t))
  {
    assert PcOk(|s.refs|, s.pcs[t]);
  }

  lemma NextPc(s: State, a: Action)
    requires WellFormed(s) && Enabled(s, a)
    ensures Moves(s, a.thread, Next(s, a))
  {
    if a.Step? {
      GetMoves(s, a.thread);
      AddMoves(s, a.thread);
    }
  }

  lemma NextLinks(s: State, a: Action)
    requires WellFormed(s) && Enabled(s, a)
    ensures forall i :: 0 <= i < |Next(s, a).next| ==> LinkOk(|s.refs|, Next(s, a).next[i])
  {
    assert PcOk(|s.refs|, s.pcs[a.thread]);
    forall i | 0 <= i < |Next(s, a).next|
      ensures LinkOk(|s.refs|, Next(s, a).next[i])
    {
      assert i < |s.next| ==> LinkOk(|s.refs|, s.next[i]);
    }
  }

  lemma NextHeld(s: State, a: Action)
    requires WellFormed(s) && Enabled(s, a)
    ensures forall n :: n in Next(s, a).held ==> n < |s.refs|
  {
    assert PcOk(|s.refs|, s.pcs[a.thread]);
    forall n | n in Next(s, a).held
      ensures n < |s.refs|
    {
      assert n in s.held || Some(n) == NodeOf(s.pcs[a.thread]);
    }
  }

  lemma NextWellFormed(s: State, a: Action)
    requires WellFormed(s) && Enabled(s, a)
    ensures WellFormed(Next(s, a))
  {
    hide Next, LinkOk, PcOk;
    NextPc(s, a);
    NextLinks(s, a);
    NextHeld(s, a);
  }

  /** What one step does to the bookkeeping of one node, given what it does to the thread's weights. */
  lemma Tallies(s: State, a: Action, k: Tally, n: Node)
    requires WellFormed(s) && Enabled(s, a)
    ensures Sum(k, Next(s, a).pcs, n) ==
              Sum(k, s.pcs, n) - Weight(k, s.pcs[a.thread], n) + Weight(k, Next(s, a).pcs[a.thread], n)
    ensures Sum(k, s.pcs, n) >= Weight(k, s.pcs[a.thread], n)
  {
    NextPc(s, a);
    SumUpdate(k, s.pcs, a.thread, Next(s, a).pcs[a.thread], n);
  }

  lemma Members(s: State, a: Action, list: seq<Node>, n: Node)
    requires Inv(s, list) && Enabled(s, a)
    ensures a.Step? && s.pcs[a.thread].PopHead? && s.head == Some(s.pcs[a.thread].node) ==>
              s.pcs[a.thread].node in list
    ensures n in ListAfter(s, a, list) <==>
              if a.Step? && s.pcs[a.thread].PopHead? && s.head == Some(s.pcs[a.thread].node) then
                n in list && n != s.pcs[a.thread].node
              else if a.Step? && s.pcs[a.thread].PushHead? && s.head == s.pcs[a.thread].link then
                n in list || n == s.pcs[a.thread].node
              else n in list
  {
    if a.Step? && s.pcs[a.thread].PopHead? && s.head == Some(s.pcs[a.thread].node) {
      PopIsExact(s, a.thread, list);
      assert list == [list[0]] + list[1..];
    }
  }

  /** All that a step says about one node: its tallies, its membership, its bounds. */
  lemma NodeFacts(s: State, a: Action, list: seq<Node>, n: Node)
    requires Inv(s, list) && Enabled(s, a) && n < |s.refs|
    ensures |Next(s, a).refs| == |s.refs| && PcOk(|s.refs|, s.pcs[a.thread]) && NodeOk(s, list, n)
    ensures Sum(Ref, Next(s, a).pcs, n) ==
              Sum(Ref, s.pcs, n) - Weight(Ref, s.pcs[a.thread], n) + Weight(Ref, Next(s, a).pcs[a.thread], n)
    ensures Sum(Open, Next(s, a).pcs, n) ==
              Sum(Open, s.pcs, n) - Weight(Open, s.pcs[a.thread], n) + Weight(Open, Next(s, a).pcs[a.thread], n)
    ensures Sum(Flagged, Next(s, a).pcs, n) ==
              Sum(Flagged, s.pcs, n) - Weight(Flagged, s.pcs[a.thread], n)
              + Weight(Flagged, Next(s, a).pcs[a.thread], n)
    ensures Sum(Ref, s.pcs, n) >= Weight(Ref, s.pcs[a.thread], n)
    ensures Sum(Open, s.pcs, n) >= Weight(Open, s.pcs[a.thread], n)
    ensures Sum(Flagged, s.pcs, n) >= Weight(Flagged, s.pcs[a.thread], n)
    ensures Sum(Ref, s.pcs, n) + 2 < SHOULD_BE_ON_FREELIST
  {
    NextPc(s, a);
    Tallies(s, a, Ref, n);
    Tallies(s, a, Open, n);
    Tallies(s, a, Flagged, n);
    SumBound(s.pcs, n);
  }

  lemma NodeKeptByLoad(s: State, t: nat, list: seq<Node>, n: Node)
    requires Inv(s, list) && t < |s.pcs| && n < |s.refs|
    requires s.pcs[t].LoadHead? || s.pcs[t].LoadRefs? || s.pcs[t].LoadNext?
    ensures |Next(s, Step(t)).refs| == |s.refs|
    ensures NodeOk(Next(s, Step(t)), ListAfter(s, Step(t), list), n)
  {
    hide ListAfter, Sum, IsList, AddStep;
    NodeFacts(s, Step(t), list, n);
    Members(s, Step(t), list, n);
    assert LocalOk(s, s.pcs[t]);
  }

  lemma NodeKeptByCount(s: State, t: nat, list: seq<Node>, n: Node)
    requires Inv(s, list) && t < |s.pcs| && n < |s.refs|
    requires s.pcs[t].IncRefs? || s.pcs[t].DropRef?
    ensures |Next(s, Step(t)).refs| == |s.refs|
    ensures NodeOk(Next(s, Step(t)), ListAfter(s, Step(t), list), n)
  {
    hide ListAfter, Sum, IsList, AddStep;
    NodeFacts(s, Step(t), list, n);
    Members(s, Step(t), list, n);
    assert LocalOk(s, s.pcs[t]);
  }

  lemma NodeKeptByPop(s: State, t: nat, list: seq<Node>, n: Node)
    requires Inv(s, list) && t < |s.pcs| && n < |s.refs|
    requires s.pcs[t].PopHead? || s.pcs[t].Release?
    ensures |Next(s, Step(t)).refs| == |s.refs|
    ensures NodeOk(Next(s, Step(t)), ListAfter(s, Step(t), list), n)
  {
    hide ListAfter, Sum, IsList, AddStep;
    NodeFacts(s, Step(t), list, n);
    Members(s, Step(t), list, n);
    assert LocalOk(s, s.pcs[t]);
  }

  lemma NodeKeptByStore(s: State, t: nat, list: seq<Node>, n: Node)
    requires Inv(s, list) && t < |s.pcs| && n < |s.refs|
    requires s.pcs[t].AddLoadHead? || s.pcs[t].StoreNext? || s.pcs[t].StoreRefs?
    ensures |Next(s, Step(t)).refs| == |s.refs|
    ensures NodeOk(Next(s, Step(t)), ListAfter(s, Step(t), list), n)
  {
    hide ListAfter, Sum, IsList, GetStep;
    NodeFacts(s, Step(t), list, n);
    Members(s, Step(t), list, n);
  }

  lemma NodeKeptByAdd(s: State, t: nat, list: seq<Node>, n: Node)
    requires Inv(s, list) && t < |s.pcs| && n < |s.refs|
    requires s.pcs[t].PushHead? || s.pcs[t].GiveBack? || s.pcs[t].SetFlag?
    ensures |Next(s, Step(t)).refs| == |s.refs|
    ensures NodeOk(Next(s, Step(t)), ListAfter(s, Step(t), list), n)
  {
    hide ListAfter, Sum, IsList, GetStep;
    NodeFacts(s, Step(t), list, n);
    Members(s, Step(t), list, n);
  }

  lemma NodeKept(s: State, a: Action, list: seq<Node>, n: Node)
    requires Inv(s, list) && Enabled(s, a) && n < |s.refs|
    ensures |Next(s, a).refs| == |s.refs|
    ensures NodeOk(Next(s, a), ListAfter(s, a, list), n)
  {
    if a.Step? {
      var pc := s.pcs[a.thread];
      if pc.AddLoadHead? || pc.StoreNext? || pc.StoreRefs? { NodeKeptByStore(s, a.thread, list, n); }
      else if pc.Adding() || pc.SetFlag? { NodeKeptByAdd(s, a.thread, list, n); }
      else if pc.IncRefs? || pc.DropRef? { NodeKeptByCount(s, a.thread, list, n); }
      else if pc.PopHead? || pc.Release? { NodeKeptByPop(s, a.thread, list, n); }
      else { NodeKeptByLoad(s, a.thread, list, n); }
    } else {
      hide Sum, IsList, AddStep, GetStep;
      NodeFacts(s, a, list, n);
    }
  }

  lemma PoppedList(s: State, t: nat, list: seq<Node>)
    requires Inv(s, list) && t < |s.pcs| && s.pcs[t].PopHead? && s.head == Some(s.pcs[t].node)
    ensures IsList(Next(s, Step(t)), ListAfter(s, Step(t), list))
  {
    PopIsExact(s, t, list);
    var rest := list[1..];
    forall j: nat | j < |rest|
      ensures LinkAt(s.next, rest, j)
    {
      assert LinkAt(s.next, list, j + 1);
    }
  }

  lemma WrittenList(s: State, t: nat, list: seq<Node>)
    requires Inv(s, list) && t < |s.pcs| && s.pcs[t].StoreNext?
    ensures IsList(Next(s, Step(t)), ListAfter(s, Step(t), list))
  {
    var n := s.pcs[t].node;
    assert PcOk(|s.refs|, s.pcs[t]) && NodeOk(s, list, n);
    SumUpdate(Flagged, s.pcs, t, Idle, n);
    var next' := s.next[n := s.pcs[t].link];
    forall j: nat | j < |list|
      ensures LinkAt(next', list, j)
    {
      assert LinkAt(s.next, list, j) && list[j] != n;
    }
  }

  lemma PushedList(s: State, t: nat, list: seq<Node>)
    requires Inv(s, list) && t < |s.pcs| && s.pcs[t].PushHead? && s.head == s.pcs[t].link
    ensures IsList(Next(s, Step(t)), ListAfter(s, Step(t), list))
  {
    var n := s.pcs[t].node;
    assert PcOk(|s.refs|, s.pcs[t]) && NodeOk(s, list, n) && LocalOk(s, s.pcs[t]);
    SumUpdate(Open, s.pcs, t, Idle, n);
    var longer := [n] + list;
    forall j: nat | j < |longer|
      ensures LinkAt(s.next, longer, j)
    {
      assert j > 0 ==> LinkAt(s.next, list, j - 1);
    }
  }

  lemma ListKept(s: State, a: Action, list: seq<Node>)
    requires Inv(s, list) && Enabled(s, a)
    ensures IsList(Next(s, a), ListAfter(s, a, list))
  {
    if a.Step? && s.pcs[a.thread].PopHead? && s.head == Some(s.pcs[a.thread].node) {
      PoppedList(s, a.thread, list);
    } else if a.Step? && s.pcs[a.thread].StoreNext? {
      WrittenList(s, a.thread, list);
    } else if a.Step? && s.pcs[a.thread].PushHead? && s.head == s.pcs[a.thread].link {
      PushedList(s, a.thread, list);
    } else {
      assert Next(s, a).next == s.next && Next(s, a).head == s.head && ListAfter(s, a, list) == list;
    }
  }

  /** The other threads' local knowledge survives a step: next pointers are written only by a lone writer. */
  lemma LocalKept(s: State, a: Action, list: seq<Node>, u: nat)
    requires Inv(s, list) && Enabled(s, a) && u < |s.pcs| && u != a.thread
    ensures WellFormed(Next(s, a)) && Next(s, a).pcs[u] == s.pcs[u]
    ensures LocalOk(Next(s, a), s.pcs[u])
  {
    NextWellFormed(s, a);
    NextPc(s, a);
    assert LocalOk(s, s.pcs[u]) && PcOk(|s.refs|, s.pcs[u]);
    if a.Step? && s.pcs[a.thread].StoreNext? {
      WriterAlone(s, a.thread, u, list);
    }
  }

  lemma LocalMadeBy(s: State, t: nat)
    requires WellFormed(s) && t < |s.pcs| && LocalOk(s, s.pcs[t]) && !s.pcs[t].Idle?
    ensures WellFormed(Next(s, Step(t))) && LocalOk(Next(s, Step(t)), Next(s, Step(t)).pcs[t])
  {
    assert PcOk(|s.refs|, s.pcs[t]);
    NextWellFormed(s, Step(t));
  }

  lemma LocalMade(s: State, a: Action, list: seq<Node>)
    requires Inv(s, list) && Enabled(s, a)
    ensures WellFormed(Next(s, a))
    ensures LocalOk(Next(s, a), Next(s, a).pcs[a.thread])
  {
    hide Sum, IsList, NodeOk, AddStep, GetStep;
    NextWellFormed(s, a);
    assert LocalOk(s, s.pcs[a.thread]);
    if a.Step? {
      LocalMadeBy(s, a.thread);
    }
  }

  /** One step of any thread, and what it does to the list. */
  lemma StepKeeps(s: State, a: Action, list: seq<Node>)
    requires Inv(s, list) && Enabled(s, a)
    ensures Inv(Next(s, a), ListAfter(s, a, list))
  {
    var s', list' := Next(s, a), ListAfter(s, a, list);
    NextWellFormed(s, a);
    NextPc(s, a);
    ListKept(s, a, list);
    forall n: Node | n < |s'.refs|
      ensures NodeOk(s', list', n)
    {
      NodeKept(s, a, list, n);
    }
    forall u | 0 <= u < |s'.pcs|
      ensures LocalOk(s', s'.pcs[u])
    {
      if u == a.thread { LocalMade(s, a, list); } else { LocalKept(s, a, list, u); }
    }
  }

  // ----- whole runs

  /** Every node starts in a caller's hands, no thread is busy, and the list is empty. */
  ghost predicate Init(s: State) {
    && s.head == None && |s.next| == |s.refs|
    && |s.pcs| + 3 < SHOULD_BE_ON_FREELIST
    && (forall i :: 0 <= i < |s.refs| ==> s.refs[i] == 0 && s.next[i] == None)
    && (forall i :: 0 <= i < |s.pcs| ==> s.pcs[i] == Idle)
    && (forall n: Node :: s.held[n] == if n < |s.refs| then 1 else 0)
  }

  ghost predicate IsRun(run: seq<State>) {
    && run != [] && Init(run[0])
    && forall i, j :: 0 <= i && j == i + 1 < |run| ==> IsStep(run[i], run[j])
  }

  ghost predicate IsStep(s: State, s': State) {
    WellFormed(s) && exists a :: Enabled(s, a) && s' == Next(s, a)
  }

  lemma {:induction false} NoWeight(k: Tally, pcs: seq<Pc>, n: Node)
    requires forall i :: 0 <= i < |pcs| ==> pcs[i] == Idle
    ensures Sum(k, pcs, n) == 0
  {
    if pcs != [] {
      NoWeight(k, pcs[1..], n);
    }
  }

  lemma InitInv(s: State)
    requires Init(s)
    ensures Inv(s, [])
  {
    forall n: Node | n < |s.refs|
      ensures NodeOk(s, [], n)
    {
      NoWeight(Ref, s.pcs, n);
      NoWeight(Open, s.pcs, n);
      NoWeight(Flagged, s.pcs, n);
    }
  }

  /** The invariant holds throughout every run of every number of threads. */
  lemma {:induction false} RunKeeps(run: seq<State>, i: nat) returns (list: seq<Node>)
    requires IsRun(run) && i < |run|
    ensures Inv(run[i], list)
  {
    hide Inv, Init, Next, ListAfter, WellFormed, Enabled;
    if i == 0 {
      list := [];
      InitInv(run[0]);
    } else {
      list := RunKeeps(run, i - 1);
      assert IsStep(run[i - 1], run[i]);
      var a :| Enabled(run[i - 1], a) && run[i] == Next(run[i - 1], a);
      StepKeeps(run[i - 1], a, list);
      list := ListAfter(run[i - 1], a, list);
    }
  }

  /** In every run, whenever an exchange of `try_get` succeeds it takes the first node off the list and leaves
      exactly the rest of it. */
  lemma PopTakesFirst(run: seq<State>, i: nat, t: nat) returns (list: seq<Node>)
    requires IsRun(run) && i < |run| && t < |run[i].pcs|
    requires run[i].pcs[t].PopHead? && run[i].head == Some(run[i].pcs[t].node)
    ensures WellFormed(run[i]) && IsList(run[i], list) && list != [] && list[0] == run[i].pcs[t].node
    ensures IsList(Next(run[i], Step(t)), list[1..])
  {
    list := RunKeeps(run, i);
    PopIsExact(run[i], t, list);
    StepKeeps(run[i], Step(t), list);
  }

  /** A node is never in two callers' hands, nor in a caller's hands and on the list. */
  lemma HeldOnce(run: seq<State>, i: nat, n: Node)
    requires IsRun(run) && i < |run| && n < |run[i].refs|
    ensures run[i].held[n] <= 1
    ensures run[i].head == Some(n) ==> run[i].held[n] == 0
    ensures forall t :: 0 <= t < |run[i].pcs| && run[i].pcs[t] == Release(n) ==> run[i].held[n] == 0
  {
    var list := RunKeeps(run, i);
    assert NodeOk(run[i], list, n);
    forall t | 0 <= t < |run[i].pcs| && run[i].pcs[t] == Release(n)
      ensures run[i].held[n] == 0
    {
      SumUpdate(Open, run[i].pcs, t, Idle, n);
    }
  }

  /** The source's assertion after the exchange: in every run, whatever the other threads did since a thread won
      a node, the node's flag is clear when it drops the two references, and both are still counted. */
  lemma ReleaseIsClear(run: seq<State>, i: nat, t: nat)
    requires IsRun(run) && i < |run| && t < |run[i].pcs| && run[i].pcs[t].Release?
    ensures run[i].pcs[t].node < |run[i].refs|
    ensures 2 <= run[i].refs[run[i].pcs[t].node] < SHOULD_BE_ON_FREELIST
  {
    var list := RunKeeps(run, i);
    var n := run[i].pcs[t].node;
    assert PcOk(|run[i].refs|, run[i].pcs[t]);
    assert NodeOk(run[i], list, n);
    SumUpdate(Open, run[i].pcs, t, Idle, n);
    SumUpdate(Ref, run[i].pcs, t, Idle, n);
    SumBound(run[i].pcs, n);
  }

  /** Two threads never win the same node. */
  lemma OneWinner(run: seq<State>, i: nat, t: nat, u: nat)
    requires IsRun(run) && i < |run| && t < |run[i].pcs| && u < |run[i].pcs| && t != u
    requires run[i].pcs[t].Release? && run[i].pcs[u].Release?
    ensures run[i].pcs[t].node != run[i].pcs[u].node
  {
    var list := RunKeeps(run, i);
    var n := run[i].pcs[t].node;
    assert PcOk(|run[i].refs|, run[i].pcs[t]);
    assert NodeOk(run[i], list, n);
    SumTwo(Open, run[i].pcs, t, u, n);
  }

  /** No node is lost: when no thread is busy, every node is in one caller's hands or on the list, and its
      reference word is 0 or 1 accordingly. */
  lemma NothingLost(run: seq<State>, i: nat) returns (list: seq<Node>)
    requires IsRun(run) && i < |run|
    requires forall t :: 0 <= t < |run[i].pcs| ==> run[i].pcs[t] == Idle
    ensures IsList(run[i], list)
    ensures forall n: Node :: n < |run[i].refs| ==>
              (n in list <==> run[i].held[n] == 0) && run[i].held[n] <= 1 && run[i].refs[n] == B(n in list)
  {
    list := RunKeeps(run, i);
    forall n: Node | n < |run[i].refs|
      ensures (n in list <==> run[i].held[n] == 0) && run[i].held[n] <= 1 && run[i].refs[n] == B(n in list)
    {
      assert NodeOk(run[i], list, n);
      NoWeight(Ref, run[i].pcs, n);
      NoWeight(Open, run[i].pcs, n);
      NoWeight(Flagged, run[i].pcs, n);
    }
  }
}
