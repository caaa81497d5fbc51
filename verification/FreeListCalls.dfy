/** What a caller of the free list sees: when `try_get` comes back with nothing, and what `try_get` and `add` do when
    no other thread moves. */
module FreeListCalls {
  import opened FreeList
  import opened Options

  // ----- calls that return nothing

  /** The thread is inside `try_get`. */
  predicate Getting(pc: Pc) {
    !pc.Idle? && !pc.SetFlag? && (pc.Adding() ==> pc.after.Resume?)
  }

  /** The head it read last, if it still has it at hand to go round the loop with. */
  predicate ReadNull(pc: Pc) {
    (pc.DropRef? && pc.link.None?) || (pc.Adding() && pc.after == Resume(None))
  }

  /** Reading the head ends the call exactly if the list is empty, and else leads to its first node. */
  lemma LoadHeadIs(s: State, t: nat, list: seq<Node>)
    requires Inv(s, list) && t < |s.pcs| && s.pcs[t].LoadHead?
    ensures Next(s, Step(t)).pcs[t] == if list == [] then Idle else LoadRefs(list[0])
  {
  }

  /** What another thread's step does not change, and where the head a thread has at hand comes from. */
  lemma ReadBefore(s: State, a: Action, t: nat)
    requires WellFormed(s) && Enabled(s, a) && t < |s.pcs|
    ensures t < |Next(s, a).pcs|
    ensures t != a.thread ==> Next(s, a).pcs[t] == s.pcs[t]
    ensures ReadNull(Next(s, a).pcs[t]) ==> Getting(s.pcs[t]) && (ReadNull(s.pcs[t]) || s.head.None?)
    ensures Getting(s.pcs[t]) && !s.pcs[t].Release? && !Getting(Next(s, a).pcs[t]) ==>
              Next(s, a).pcs[t].Idle? && (ReadNull(s.pcs[t]) || s.head.None?)
  {
    NextPc(s, a);
    if a.Step? && t == a.thread {
      hide Next, GetStep, AddStep;
      StepIs(s, t);
      if s.pcs[t].Adding() || s.pcs[t].SetFlag? { ReadAdd(s, t); } else { ReadGet(s, t); }
    } else {
      hide GetStep, AddStep;
    }
  }

  lemma StepIs(s: State, t: nat)
    requires WellFormed(s) && t < |s.pcs| && !s.pcs[t].Idle?
    ensures Next(s, Step(t)) == if s.pcs[t].Adding() || s.pcs[t].SetFlag? then AddStep(s, t) else GetStep(s, t)
  {
    hide GetStep, AddStep;
  }

  ghost predicate ReadsRight(s: State, pc: Pc, pc': Pc) {
    && (ReadNull(pc') ==> Getting(pc) && (ReadNull(pc) || s.head.None?))
    && (Getting(pc) && !pc.Release? && !Getting(pc') ==> pc'.Idle? && (ReadNull(pc) || s.head.None?))
  }

  lemma ReadGet(s: State, t: nat)
    requires WellFormed(s) && t < |s.pcs| && !s.pcs[t].Adding() && !s.pcs[t].SetFlag? && !s.pcs[t].Idle?
    ensures |GetStep(s, t).pcs| == |s.pcs| && ReadsRight(s, s.pcs[t], GetStep(s, t).pcs[t])
  {
  }

  lemma ReadAdd(s: State, t: nat)
    requires WellFormed(s) && t < |s.pcs| && (s.pcs[t].Adding() || s.pcs[t].SetFlag?)
    ensures |AddStep(s, t).pcs| == |s.pcs| && ReadsRight(s, s.pcs[t], AddStep(s, t).pcs[t])
  {
  }

  /** A null head at hand was read in this very call, when the list was empty. */
  lemma {:induction false} NullWasRead(run: seq<State>, i: nat, t: nat) returns (j: nat)
    requires IsRun(run) && i < |run| && t < |run[i].pcs| && ReadNull(run[i].pcs[t])
    ensures j <= i && run[j].head.None?
    ensures forall m :: j <= m <= i ==> t < |run[m].pcs| && Getting(run[m].pcs[t])
    decreases i, 0
  {
    hide Init, Next, WellFormed, Enabled;
    if i == 0 {
      assert Init(run[0]);
      NobodyReads(run[0], t);
    } else {
      j := NullBefore(run, i - 1, t);
    }
  }

  lemma NobodyReads(s: State, t: nat)
    requires Init(s) && t < |s.pcs|
    ensures !ReadNull(s.pcs[t])
  {
  }

  /** ... the same for the state after a step. */
  lemma {:induction false} NullBefore(run: seq<State>, i: nat, t: nat) returns (j: nat)
    requires IsRun(run) && i + 1 < |run| && t < |run[i + 1].pcs|
    requires
      || ReadNull(run[i + 1].pcs[t])
      || (t < |run[i].pcs| && Getting(run[i].pcs[t]) && !run[i].pcs[t].Release? && !Getting(run[i + 1].pcs[t]))
    ensures j <= i && run[j].head.None?
    ensures forall m :: j <= m <= i ==> t < |run[m].pcs| && Getting(run[m].pcs[t])
    ensures ReadNull(run[i + 1].pcs[t]) ==> Getting(run[i + 1].pcs[t])
    decreases i, 1
  {
    hide Init, Next, WellFormed, Enabled;
    assert IsStep(run[i], run[i + 1]);
    var a :| Enabled(run[i], a) && run[i + 1] == Next(run[i], a);
    SameThreads(run[i], a);
    ReadBefore(run[i], a, t);
    if run[i].head.None? {
      j := i;
    } else {
      j := NullWasRead(run, i, t);
    }
  }

  lemma SameThreads(s: State, a: Action)
    requires WellFormed(s) && Enabled(s, a)
    ensures |Next(s, a).pcs| == |s.pcs|
  {
    NextPc(s, a);
  }

  /** Whenever `try_get` ends without a node, and so returns null, the list was empty at some moment of that very
      call. */
  lemma NullMeansEmpty(run: seq<State>, i: nat, t: nat) returns (j: nat)
    requires IsRun(run) && i + 1 < |run| && t < |run[i].pcs| && |run[i + 1].pcs| == |run[i].pcs|
    requires Getting(run[i].pcs[t]) && !run[i].pcs[t].Release? && !Getting(run[i + 1].pcs[t])
    ensures j <= i && IsList(run[j], [])
    ensures forall m :: j <= m <= i ==> t < |run[m].pcs| && Getting(run[m].pcs[t])
  {
    hide IsRun;
    j := NullBefore(run, i, t);
  }

  // ----- calls that run alone

  /** `k` steps of one thread, or as many as it takes to the end of its call, while all others stand still. */
  ghost function Alone(s: State, t: nat, k: nat): State {
    if k == 0 then s
    else
      var before := Alone(s, t, k - 1);
      if WellFormed(before) && Enabled(before, Step(t)) then Next(before, Step(t)) else before
  }

  /** One more step of a thread that is not done. */
  lemma OneMore(s: State, t: nat, k: nat, was: State, list: seq<Node>, now: State, after: seq<Node>)
    requires Alone(s, t, k) == was && Inv(was, list) && t < |was.pcs| && !was.pcs[t].Idle?
    requires WellFormed(was) && Next(was, Step(t)) == now && ListAfter(was, Step(t), list) == after
    ensures Alone(s, t, k + 1) == now && Inv(now, after)
  {
    hide Next, ListAfter;
    StepKeeps(was, Step(t), list);
  }

  /** ... of `try_get`. */
  lemma OneMoreGet(s: State, t: nat, k: nat, was: State, list: seq<Node>, now: State, after: seq<Node>)
    requires Alone(s, t, k) == was && Inv(was, list) && t < |was.pcs|
    requires Getting(was.pcs[t]) && !was.pcs[t].Adding() && GetStep(was, t) == now
    requires after == if was.pcs[t].PopHead? && was.head == Some(was.pcs[t].node) && list != [] then list[1..] else list
    ensures Alone(s, t, k + 1) == now && Inv(now, after)
  {
    hide GetStep, AddStep, IsList, NodeOk, LocalOk;
    OneMore(s, t, k, was, list, now, after);
  }

  /** The operations of `try_get` one after the other, when nothing comes between. */
  lemma CountSteps(s: State, t: nat, h: Node)
    requires WellFormed(s) && t < |s.pcs| && h < |s.refs| && s.head == Some(h)
    requires 0 < s.refs[h] < SHOULD_BE_ON_FREELIST - 1
    ensures GetStep(At(s, t, LoadHead), t) == At(s, t, LoadRefs(h))
    ensures GetStep(At(s, t, LoadRefs(h)), t) == At(s, t, IncRefs(h, s.refs[h]))
    ensures GetStep(At(s, t, IncRefs(h, s.refs[h])), t) == At(Counted(s, h), t, LoadNext(h))
  {
  }

  lemma PopSteps(s: State, t: nat, h: Node)
    requires WellFormed(s) && t < |s.pcs| && h < |s.refs| && s.head == Some(h)
    requires 0 < s.refs[h] < SHOULD_BE_ON_FREELIST - 1
    ensures GetStep(At(Counted(s, h), t, LoadNext(h)), t) == At(Counted(s, h), t, PopHead(h, s.next[h]))
    ensures GetStep(At(Counted(s, h), t, PopHead(h, s.next[h])), t) == At(Popped(s, h), t, Release(h))
    ensures GetStep(At(Popped(s, h), t, Release(h)), t) == At(Taken(s, h), t, Idle)
  {
  }

  /** Wherever the other threads stand, `try_get` alone ends within six operations: with the first node of the list
      in the caller's hands, or, exactly if there is none, with nothing changed. */
  lemma LoneGet(s: State, t: nat, list: seq<Node>)
    requires Inv(s, list) && t < |s.pcs| && s.pcs[t].Idle?
    ensures WellFormed(s)
    ensures
      var s' := Alone(Next(s, StartGet(t)), t, 6);
      if list == [] then s' == s
      else
        && list[0] < |s.refs| && s.refs[list[0]] > 0
        && s' == s.(held := s.held + multiset{list[0]}, head := if |list| > 1 then Some(list[1]) else None,
                    refs := s.refs[list[0] := s.refs[list[0]] - 1])
        && Inv(s', list[1..])
  {
    hide Inv, Alone;
    FirstNode(s, list);
    if list == [] {
      GetNone(s, t);
    } else {
      GetFirst(s, t, list);
    }
  }

  lemma GetNone(s: State, t: nat)
    requires Inv(s, []) && t < |s.pcs| && s.pcs[t].Idle?
    ensures WellFormed(s) && Alone(Next(s, StartGet(t)), t, 6) == s
  {
    StepKeeps(s, StartGet(t), []);
    var s0 := At(s, t, LoadHead);
    AloneNone(s0, t);
    OneMoreGet(s0, t, 0, s0, [], s, []);
    StandsStill(s0, t, 1, 6);
  }

  /** The states `try_get` goes through before it has the node counted, and after. */
  ghost function Counted(s: State, h: Node): State
    requires h < |s.refs|
  {
    s.(refs := s.refs[h := s.refs[h] + 1])
  }

  ghost function Popped(s: State, h: Node): State
    requires h < |s.refs| && |s.next| == |s.refs|
  {
    Counted(s, h).(head := s.next[h])
  }

  ghost function Taken(s: State, h: Node): State
    requires h < |s.refs| && |s.next| == |s.refs| && s.refs[h] > 0
  {
    s.(head := s.next[h], refs := s.refs[h := s.refs[h] - 1], held := s.held + multiset{h})
  }

  lemma GetCounts(s: State, t: nat, list: seq<Node>)
    requires Inv(s, list) && t < |s.pcs| && s.pcs[t].Idle? && list != []
    ensures list[0] < |s.refs|
    ensures Alone(At(s, t, LoadHead), t, 3) == At(Counted(s, list[0]), t, LoadNext(list[0]))
    ensures Inv(At(Counted(s, list[0]), t, LoadNext(list[0])), list)
  {
    FirstNode(s, list);
    StepKeeps(s, StartGet(t), list);
    var h := list[0];
    var s0 := At(s, t, LoadHead);
    CountSteps(s, t, h);
    hide Inv, Alone, GetStep, WellFormed, Counted;
    AloneNone(s0, t);
    OneMoreGet(s0, t, 0, s0, list, At(s, t, LoadRefs(h)), list);
    OneMoreGet(s0, t, 1, At(s, t, LoadRefs(h)), list, At(s, t, IncRefs(h, s.refs[h])), list);
    OneMoreGet(s0, t, 2, At(s, t, IncRefs(h, s.refs[h])), list, At(Counted(s, h), t, LoadNext(h)), list);
  }

  lemma GetPops(s: State, t: nat, list: seq<Node>)
    requires WellFormed(s) && t < |s.pcs| && list != [] && list[0] < |s.refs| && s.head == Some(list[0])
    requires 0 < s.refs[list[0]] < SHOULD_BE_ON_FREELIST - 1
    requires Alone(At(s, t, LoadHead), t, 3) == At(Counted(s, list[0]), t, LoadNext(list[0]))
    requires Inv(At(Counted(s, list[0]), t, LoadNext(list[0])), list)
    ensures Alone(At(s, t, LoadHead), t, 6) == At(Taken(s, list[0]), t, Idle)
    ensures Inv(At(Taken(s, list[0]), t, Idle), list[1..])
  {
    var h := list[0];
    var s0, s3 := At(s, t, LoadHead), At(Counted(s, h), t, LoadNext(h));
    PopSteps(s, t, h);
    hide Inv, Alone, GetStep, WellFormed, Taken;
    OneMoreGet(s0, t, 3, s3, list, At(Counted(s, h), t, PopHead(h, s.next[h])), list);
    OneMoreGet(s0, t, 4, At(Counted(s, h), t, PopHead(h, s.next[h])), list, At(Popped(s, h), t, Release(h)), list[1..]);
    OneMoreGet(s0, t, 5, At(Popped(s, h), t, Release(h)), list[1..], At(Taken(s, h), t, Idle), list[1..]);
  }

  lemma GetFirst(s: State, t: nat, list: seq<Node>)
    requires Inv(s, list) && t < |s.pcs| && s.pcs[t].Idle? && list != []
    ensures WellFormed(s) && list[0] < |s.refs| && s.refs[list[0]] > 0
    ensures Alone(Next(s, StartGet(t)), t, 6) == Taken(s, list[0]) && Inv(Taken(s, list[0]), list[1..])
  {
    FirstNode(s, list);
    hide Inv, Alone;
    GetCounts(s, t, list);
    GetPops(s, t, list);
    assert At(Taken(s, list[0]), t, Idle) == Taken(s, list[0]);
  }

  lemma AloneNone(s: State, t: nat)
    ensures Alone(s, t, 0) == s
  {
  }

  lemma {:induction false} StandsStill(s: State, t: nat, k: nat, n: nat)
    requires k <= n && t < |Alone(s, t, k).pcs| && Alone(s, t, k).pcs[t].Idle?
    ensures Alone(s, t, n) == Alone(s, t, k)
  {
    hide Next;
    if k < n {
      StandsStill(s, t, k, n - 1);
    }
  }

  /** The states `add` goes through when nobody else refers to the node. */
  ghost function Given(s: State, n: Node): State
    requires n < |s.refs|
  {
    s.(held := s.held - multiset{n})
  }

  ghost function Marked(s: State, n: Node): State
    requires n < |s.refs|
  {
    Given(s, n).(refs := s.refs[n := s.refs[n] + SHOULD_BE_ON_FREELIST])
  }

  ghost function Linked(s: State, n: Node): State
    requires n < |s.refs| && |s.next| == |s.refs|
  {
    Marked(s, n).(next := s.next[n := s.head])
  }

  ghost function Ready(s: State, n: Node): State
    requires n < |s.refs| && |s.next| == |s.refs|
  {
    Linked(s, n).(refs := s.refs[n := 1])
  }

  ghost function Pushed(s: State, n: Node): State
    requires n < |s.refs| && |s.next| == |s.refs|
  {
    Ready(s, n).(head := Some(n))
  }

  lemma FlagSteps(s: State, t: nat, n: Node)
    requires WellFormed(s) && t < |s.pcs| && n < |s.refs| && n in s.held && s.refs[n] < SHOULD_BE_ON_FREELIST
    ensures AddStep(At(Given(s, n), t, SetFlag(n)), t) ==
            At(Marked(s, n), t, if s.refs[n] == 0 then AddLoadHead(n, Return) else Idle)
    ensures AddStep(At(Marked(s, n), t, AddLoadHead(n, Return)), t) == At(Marked(s, n), t, StoreNext(n, s.head, Return))
  {
  }

  lemma PushSteps(s: State, t: nat, n: Node)
    requires WellFormed(s) && t < |s.pcs| && n < |s.refs| && n in s.held
    ensures AddStep(At(Marked(s, n), t, StoreNext(n, s.head, Return)), t) ==
            At(Linked(s, n), t, StoreRefs(n, s.head, Return))
    ensures AddStep(At(Linked(s, n), t, StoreRefs(n, s.head, Return)), t) ==
            At(Ready(s, n), t, PushHead(n, s.head, Return))
    ensures AddStep(At(Ready(s, n), t, PushHead(n, s.head, Return)), t) == At(Pushed(s, n), t, Idle)
  {
  }

  lemma OneMoreAdd(s: State, t: nat, k: nat, was: State, list: seq<Node>, now: State, after: seq<Node>)
    requires Alone(s, t, k) == was && Inv(was, list) && t < |was.pcs|
    requires (was.pcs[t].SetFlag? || was.pcs[t].Adding()) && AddStep(was, t) == now
    requires after == if was.pcs[t].PushHead? && was.head == was.pcs[t].link then [was.pcs[t].node] + list else list
    ensures Alone(s, t, k + 1) == now && Inv(now, after)
  {
    hide GetStep, AddStep, IsList, NodeOk, LocalOk;
    OneMore(s, t, k, was, list, now, after);
  }

  /** A node in a caller's hands has its flag clear, and its word counts the threads that still refer to it. */
  lemma HeldNode(s: State, n: Node, list: seq<Node>)
    requires Inv(s, list) && n in s.held
    ensures WellFormed(s) && n < |s.refs| && s.refs[n] == Sum(Ref, s.pcs, n) < SHOULD_BE_ON_FREELIST
    ensures (forall u :: 0 <= u < |s.pcs| ==> s.pcs[u].Idle?) ==> s.refs[n] == 0
  {
    assert NodeOk(s, list, n);
    SumBound(s.pcs, n);
    if forall u :: 0 <= u < |s.pcs| ==> s.pcs[u].Idle? {
      NoWeight(Ref, s.pcs, n);
    }
  }

  /** Wherever the other threads stand, `add` alone ends within five operations. If no thread still refers to the
      node, it is then the first of the list; else it is flagged, for the last one to put it there. */
  lemma LoneAdd(s: State, t: nat, n: Node, list: seq<Node>)
    requires Inv(s, list) && t < |s.pcs| && s.pcs[t].Idle? && n in s.held
    ensures WellFormed(s) && n < |s.refs|
    ensures
      var s' := Alone(Next(s, StartAdd(t, n)), t, 5);
      && s'.held == s.held - multiset{n} && s'.pcs == s.pcs
      && if s.refs[n] == 0 then s' == Pushed(s, n) && Inv(s', [n] + list)
         else s' == Marked(s, n) && Inv(s', list)
  {
    HeldNode(s, n, list);
    StepKeeps(s, StartAdd(t, n), list);
    var s0 := At(Given(s, n), t, SetFlag(n));
    FlagSteps(s, t, n);
    hide Inv, Alone, AddStep, GetStep, WellFormed, Marked, Pushed;
    AloneNone(s0, t);
    OneMoreAdd(s0, t, 0, s0, list, At(Marked(s, n), t, if s.refs[n] == 0 then AddLoadHead(n, Return) else Idle), list);
    if s.refs[n] == 0 {
      Pushes(s, t, n, list);
    } else {
      assert At(Marked(s, n), t, Idle) == Marked(s, n);
      StandsStill(s0, t, 1, 5);
    }
  }

  lemma Pushes(s: State, t: nat, n: Node, list: seq<Node>)
    requires WellFormed(s) && t < |s.pcs| && s.pcs[t].Idle? && n in s.held && n < |s.refs| && s.refs[n] == 0
    requires Alone(At(Given(s, n), t, SetFlag(n)), t, 1) == At(Marked(s, n), t, AddLoadHead(n, Return))
    requires Inv(At(Marked(s, n), t, AddLoadHead(n, Return)), list)
    ensures Alone(At(Given(s, n), t, SetFlag(n)), t, 5) == Pushed(s, n) && Inv(Pushed(s, n), [n] + list)
  {
    var s0, h := At(Given(s, n), t, SetFlag(n)), s.head;
    FlagSteps(s, t, n);
    PushSteps(s, t, n);
    hide Inv, Alone, AddStep, GetStep, WellFormed, Marked, Linked, Ready;
    OneMoreAdd(s0, t, 1, At(Marked(s, n), t, AddLoadHead(n, Return)), list,
               At(Marked(s, n), t, StoreNext(n, h, Return)), list);
    OneMoreAdd(s0, t, 2, At(Marked(s, n), t, StoreNext(n, h, Return)), list,
               At(Linked(s, n), t, StoreRefs(n, h, Return)), list);
    OneMoreAdd(s0, t, 3, At(Linked(s, n), t, StoreRefs(n, h, Return)), list,
               At(Ready(s, n), t, PushHead(n, h, Return)), list);
    PushedHead(s, t, n);
    OneMoreAdd(s0, t, 4, At(Ready(s, n), t, PushHead(n, h, Return)), list, At(Pushed(s, n), t, Idle), [n] + list);
  }

  lemma PushedHead(s: State, t: nat, n: Node)
    requires WellFormed(s) && t < |s.pcs| && s.pcs[t].Idle? && n < |s.refs|
    ensures Ready(s, n).head == s.head && Ready(s, n).pcs == s.pcs && At(Pushed(s, n), t, Idle) == Pushed(s, n)
  {
  }

  lemma FirstNode(s: State, list: seq<Node>)
    requires Inv(s, list)
    ensures WellFormed(s)
    ensures list == [] ==> s.head.None?
    ensures list != [] ==>
              && list[0] < |s.refs| && s.head == Some(list[0]) && 0 < s.refs[list[0]] < SHOULD_BE_ON_FREELIST - 1
              && s.next[list[0]] == if |list| > 1 then Some(list[1]) else None
  {
    if list != [] {
      assert LinkAt(s.next, list, 0);
      assert NodeOk(s, list, list[0]);
      SumBound(s.pcs, list[0]);
    }
  }
}
