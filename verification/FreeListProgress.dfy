/** The free list is lock-free for whoever runs alone: from any state a run can reach, whatever call a thread is in and
    wherever the others stand, its call ends. */
module FreeListProgress {
  import opened FreeList
  import opened FreeListCalls
  import opened Options

  ghost predicate Ends(s: State, t: nat, k: nat) {
    t < |Alone(s, t, k).pcs| && Alone(s, t, k).pcs[t].Idle?
  }

  lemma {:induction false} AloneFirst(s: State, t: nat, k: nat)
    requires WellFormed(s) && Enabled(s, Step(t))
    ensures Alone(s, t, k + 1) == Alone(Next(s, Step(t)), t, k)
  {
    hide Next, WellFormed, Enabled;
    if k > 0 {
      AloneFirst(s, t, k - 1);
      assert Alone(s, t, k) == Alone(Next(s, Step(t)), t, k - 1);
    } else {
      AloneNone(s, t);
      AloneNone(Next(s, Step(t)), t);
      assert Alone(s, t, 1) == Next(s, Step(t));
    }
  }

  lemma EndsLater(s: State, t: nat, k: nat, n: nat)
    requires Ends(s, t, k) && k <= n
    ensures Ends(s, t, n)
  {
    hide Alone;
    StandsStill(s, t, k, n);
  }

  /** One step, after which `k` more suffice. */
  lemma Onward(s: State, t: nat, list: seq<Node>, k: nat) returns (s': State, after: seq<Node>)
    requires Inv(s, list) && t < |s.pcs| && !s.pcs[t].Idle?
    ensures WellFormed(s) && s' == Next(s, Step(t)) && after == ListAfter(s, Step(t), list) && Inv(s', after)
    ensures |s'.pcs| == |s.pcs|
    ensures Ends(s', t, k) ==> Ends(s, t, k + 1)
  {
    hide Alone, Next, ListAfter;
    s', after := Next(s, Step(t)), ListAfter(s, Step(t), list);
    StepKeeps(s, Step(t), list);
    SameThreads(s, Step(t));
    AloneFirst(s, t, k);
  }

  lemma IdleEnds(s: State, t: nat, k: nat)
    requires t < |s.pcs| && s.pcs[t].Idle?
    ensures Ends(s, t, k)
  {
    AloneNone(s, t);
    EndsLater(s, t, 0, k);
  }

  lemma ReleaseEnds(s: State, t: nat, list: seq<Node>)
    requires Inv(s, list) && t < |s.pcs| && s.pcs[t].Release?
    ensures Ends(s, t, 1)
  {
    hide Ends, NodeOk, IsList;
    var s', after := Onward(s, t, list, 0);
    IdleEnds(s', t, 0);
  }

  // ----- with the first node of the list in view

  lemma PopEnds(s: State, t: nat, list: seq<Node>)
    requires Inv(s, list) && t < |s.pcs| && s.pcs[t].PopHead? && s.head == Some(s.pcs[t].node)
    ensures Ends(s, t, 2)
  {
    hide Ends, NodeOk, IsList;
    var s', after := Onward(s, t, list, 1);
    ReleaseEnds(s', t, after);
  }

  lemma NextEnds(s: State, t: nat, list: seq<Node>)
    requires Inv(s, list) && t < |s.pcs| && s.pcs[t].LoadNext? && s.head == Some(s.pcs[t].node)
    ensures Ends(s, t, 3)
  {
    hide Ends, NodeOk, IsList;
    var s', after := Onward(s, t, list, 2);
    PopEnds(s', t, after);
  }

  /** It goes round the loop with the current head. */
  lemma LoopEnds(s: State, t: nat, list: seq<Node>)
    requires Inv(s, list) && t < |s.pcs| && s.pcs[t] == Loop(s.head)
    ensures Ends(s, t, 5)
  {
    hide Ends, IsList, NodeOk;
    FirstNode(s, list);
    if s.head.None? {
      IdleEnds(s, t, 5);
    } else {
      var s1, l1 := Onward(s, t, list, 4);
      var s2, l2 := Onward(s1, t, l1, 3);
      NextEnds(s2, t, l2);
    }
  }

  lemma HeadEnds(s: State, t: nat, list: seq<Node>)
    requires Inv(s, list) && t < |s.pcs| && s.pcs[t].LoadHead?
    ensures Ends(s, t, 6)
  {
    hide Ends, NodeOk, IsList;
    var s', after := Onward(s, t, list, 5);
    LoopEnds(s', t, after);
  }

  // ----- with a node of the list at hand that need not be the first any more

  lemma Listed(s: State, list: seq<Node>, n: Node)
    requires Inv(s, list) && n in list
    ensures n < |s.refs| && s.refs[n] == 1 + Sum(Ref, s.pcs, n) < SHOULD_BE_ON_FREELIST
  {
    assert NodeOk(s, list, n);
    SumBound(s.pcs, n);
  }

  lemma DropListed(s: State, t: nat, list: seq<Node>)
    requires Inv(s, list) && t < |s.pcs| && s.pcs[t].DropRef? && s.pcs[t].link == s.head && s.pcs[t].node in list
    ensures Ends(s, t, 6)
  {
    hide Ends, NodeOk, IsList;
    Listed(s, list, s.pcs[t].node);
    var s', after := Onward(s, t, list, 5);
    LoopEnds(s', t, after);
  }

  lemma PopListed(s: State, t: nat, list: seq<Node>)
    requires Inv(s, list) && t < |s.pcs| && s.pcs[t].PopHead? && s.pcs[t].node in list
    ensures Ends(s, t, 7)
  {
    hide Ends, NodeOk, IsList;
    var s', after := Onward(s, t, list, 6);
    if s.head == Some(s.pcs[t].node) {
      PopEnds(s, t, list);
      EndsLater(s, t, 2, 7);
    } else {
      DropListed(s', t, after);
    }
  }

  lemma NextListed(s: State, t: nat, list: seq<Node>)
    requires Inv(s, list) && t < |s.pcs| && s.pcs[t].LoadNext? && s.pcs[t].node in list
    ensures Ends(s, t, 8)
  {
    hide Ends, NodeOk, IsList;
    var s', after := Onward(s, t, list, 7);
    PopListed(s', t, after);
  }

  lemma LoadListed(s: State, t: nat, list: seq<Node>)
    requires Inv(s, list) && t < |s.pcs| && s.pcs[t].LoadRefs? && s.pcs[t].node in list
    ensures Ends(s, t, 10)
  {
    hide Ends, NodeOk, IsList;
    Listed(s, list, s.pcs[t].node);
    var s', after := Onward(s, t, list, 9);
    var s2, l2 := Onward(s', t, after, 8);
    NextListed(s2, t, l2);
  }

  // ----- with any node at hand

  /** The head read before stays on the list, behind the node pushed. */
  lemma PushSecond(s: State, t: nat, list: seq<Node>)
    requires Inv(s, list) && t < |s.pcs| && s.pcs[t].PushHead?
    requires s.pcs[t].link == s.head && s.pcs[t].after == Resume(s.head)
    ensures Ends(s, t, 11)
  {
    hide Ends, NodeOk, IsList;
    FirstNode(s, list);
    var s', after := Onward(s, t, list, 10);
    if s.head.None? {
      IdleEnds(s', t, 10);
    } else {
      assert after[1] == list[0];
      LoadListed(s', t, after);
    }
  }

  lemma StoreSecond(s: State, t: nat, list: seq<Node>)
    requires Inv(s, list) && t < |s.pcs| && (s.pcs[t].StoreNext? || s.pcs[t].StoreRefs?)
    requires s.pcs[t].link == s.head && s.pcs[t].after == Resume(s.head)
    ensures Ends(s, t, 13)
  {
    hide Ends, NodeOk, IsList;
    var s', after := Onward(s, t, list, 12);
    if s.pcs[t].StoreNext? {
      var s2, l2 := Onward(s', t, after, 11);
      PushSecond(s2, t, l2);
    } else {
      PushSecond(s', t, after);
      EndsLater(s', t, 11, 12);
    }
  }

  lemma DropFresh(s: State, t: nat, list: seq<Node>)
    requires Inv(s, list) && t < |s.pcs| && s.pcs[t].DropRef? && s.pcs[t].link == s.head
    ensures Ends(s, t, 15)
  {
    hide Ends, NodeOk, IsList;
    var s', after := Onward(s, t, list, 14);
    if s'.pcs[t].AddLoadHead? {
      var s2, l2 := Onward(s', t, after, 13);
      StoreSecond(s2, t, l2);
    } else {
      LoopEnds(s', t, after);
      EndsLater(s', t, 5, 14);
    }
  }

  lemma PopAny(s: State, t: nat, list: seq<Node>)
    requires Inv(s, list) && t < |s.pcs| && s.pcs[t].PopHead?
    ensures Ends(s, t, 16)
  {
    hide Ends, NodeOk, IsList;
    var s', after := Onward(s, t, list, 15);
    if s.head == Some(s.pcs[t].node) {
      PopEnds(s, t, list);
      EndsLater(s, t, 2, 16);
    } else {
      DropFresh(s', t, after);
    }
  }

  lemma NextAny(s: State, t: nat, list: seq<Node>)
    requires Inv(s, list) && t < |s.pcs| && s.pcs[t].LoadNext?
    ensures Ends(s, t, 17)
  {
    hide Ends, NodeOk, IsList;
    var s', after := Onward(s, t, list, 16);
    PopAny(s', t, after);
  }

  lemma IncAny(s: State, t: nat, list: seq<Node>)
    requires Inv(s, list) && t < |s.pcs| && s.pcs[t].IncRefs?
    ensures Ends(s, t, 18)
  {
    hide Ends, NodeOk, IsList;
    var s', after := Onward(s, t, list, 17);
    if s'.pcs[t].LoadNext? {
      NextAny(s', t, after);
    } else {
      HeadEnds(s', t, after);
      EndsLater(s', t, 6, 17);
    }
  }

  lemma LoadAny(s: State, t: nat, list: seq<Node>)
    requires Inv(s, list) && t < |s.pcs| && s.pcs[t].LoadRefs?
    ensures Ends(s, t, 19)
  {
    hide Ends, NodeOk, IsList;
    var s', after := Onward(s, t, list, 18);
    if s'.pcs[t].IncRefs? {
      IncAny(s', t, after);
    } else {
      HeadEnds(s', t, after);
      EndsLater(s', t, 6, 18);
    }
  }

  lemma ContinueAny(s: State, t: nat, list: seq<Node>, after: Then)
    requires Inv(s, list) && t < |s.pcs| && s.pcs[t] == Continue(after)
    ensures Ends(s, t, 19)
  {
    hide Ends, NodeOk, IsList, LocalOk;
    if s.pcs[t].Idle? {
      IdleEnds(s, t, 19);
    } else {
      LoadAny(s, t, list);
    }
  }

  lemma PushFresh(s: State, t: nat, list: seq<Node>)
    requires Inv(s, list) && t < |s.pcs| && s.pcs[t].PushHead? && s.pcs[t].link == s.head
    ensures Ends(s, t, 20)
  {
    hide Ends, NodeOk, IsList;
    var s', after := Onward(s, t, list, 19);
    ContinueAny(s', t, after, s.pcs[t].after);
  }

  lemma StoreFresh(s: State, t: nat, list: seq<Node>)
    requires Inv(s, list) && t < |s.pcs| && (s.pcs[t].StoreNext? || s.pcs[t].StoreRefs?) && s.pcs[t].link == s.head
    ensures Ends(s, t, 22)
  {
    hide Ends, NodeOk, IsList;
    var s', after := Onward(s, t, list, 21);
    if s.pcs[t].StoreNext? {
      var s2, l2 := Onward(s', t, after, 20);
      PushFresh(s2, t, l2);
    } else {
      PushFresh(s', t, after);
      EndsLater(s', t, 20, 21);
    }
  }

  lemma BackFresh(s: State, t: nat, list: seq<Node>)
    requires Inv(s, list) && t < |s.pcs| && s.pcs[t].GiveBack? && s.pcs[t].link == s.head
    ensures Ends(s, t, 23)
  {
    hide Ends, NodeOk, IsList;
    var s', after := Onward(s, t, list, 22);
    if s'.pcs[t].StoreNext? {
      StoreFresh(s', t, after);
    } else {
      ContinueAny(s', t, after, s.pcs[t].after);
      EndsLater(s', t, 19, 22);
    }
  }

  lemma PushAny(s: State, t: nat, list: seq<Node>)
    requires Inv(s, list) && t < |s.pcs| && s.pcs[t].PushHead?
    ensures Ends(s, t, 24)
  {
    hide Ends, NodeOk, IsList;
    var s', after := Onward(s, t, list, 23);
    if s.head == s.pcs[t].link {
      PushFresh(s, t, list);
      EndsLater(s, t, 20, 24);
    } else {
      BackFresh(s', t, after);
    }
  }

  lemma StoreRefsAny(s: State, t: nat, list: seq<Node>)
    requires Inv(s, list) && t < |s.pcs| && s.pcs[t].StoreRefs?
    ensures Ends(s, t, 25)
  {
    hide Ends, NodeOk, IsList;
    var s', after := Onward(s, t, list, 24);
    PushAny(s', t, after);
  }

  lemma StoreAny(s: State, t: nat, list: seq<Node>)
    requires Inv(s, list) && t < |s.pcs| && s.pcs[t].StoreNext?
    ensures Ends(s, t, 26)
  {
    hide Ends, NodeOk, IsList;
    var s', after := Onward(s, t, list, 25);
    StoreRefsAny(s', t, after);
  }

  lemma BackAny(s: State, t: nat, list: seq<Node>)
    requires Inv(s, list) && t < |s.pcs| && s.pcs[t].GiveBack?
    ensures Ends(s, t, 27)
  {
    hide Ends, NodeOk, IsList;
    var s', after := Onward(s, t, list, 26);
    if s'.pcs[t].StoreNext? {
      StoreAny(s', t, after);
    } else {
      ContinueAny(s', t, after, s.pcs[t].after);
      EndsLater(s', t, 19, 26);
    }
  }

  lemma AddHeadAny(s: State, t: nat, list: seq<Node>)
    requires Inv(s, list) && t < |s.pcs| && s.pcs[t].AddLoadHead?
    ensures Ends(s, t, 23)
  {
    hide Ends, NodeOk, IsList;
    var s', after := Onward(s, t, list, 22);
    StoreFresh(s', t, after);
  }

  lemma DropAny(s: State, t: nat, list: seq<Node>)
    requires Inv(s, list) && t < |s.pcs| && s.pcs[t].DropRef?
    ensures Ends(s, t, 24)
  {
    hide Ends, NodeOk, IsList;
    var s', after := Onward(s, t, list, 23);
    if s'.pcs[t].AddLoadHead? {
      AddHeadAny(s', t, after);
    } else {
      ContinueAny(s', t, after, Resume(s.pcs[t].link));
      EndsLater(s', t, 19, 23);
    }
  }

  lemma FlagAny(s: State, t: nat, list: seq<Node>)
    requires Inv(s, list) && t < |s.pcs| && s.pcs[t].SetFlag?
    ensures Ends(s, t, 24)
  {
    hide Ends, NodeOk, IsList;
    var s', after := Onward(s, t, list, 23);
    if s'.pcs[t].AddLoadHead? {
      AddHeadAny(s', t, after);
    } else {
      IdleEnds(s', t, 23);
    }
  }

  lemma GetEnds(s: State, t: nat, list: seq<Node>)
    requires Inv(s, list) && t < |s.pcs| && !s.pcs[t].Adding() && !s.pcs[t].SetFlag? && !s.pcs[t].Idle?
    ensures Ends(s, t, 24)
  {
    hide Ends, Inv;
    match s.pcs[t] {
      case LoadHead => HeadEnds(s, t, list); EndsLater(s, t, 6, 24);
      case LoadRefs(_) => LoadAny(s, t, list); EndsLater(s, t, 19, 24);
      case IncRefs(_, _) => IncAny(s, t, list); EndsLater(s, t, 18, 24);
      case LoadNext(_) => NextAny(s, t, list); EndsLater(s, t, 17, 24);
      case PopHead(_, _) => PopAny(s, t, list); EndsLater(s, t, 16, 24);
      case Release(_) => ReleaseEnds(s, t, list); EndsLater(s, t, 1, 24);
      case DropRef(_, _) => DropAny(s, t, list);
    }
  }

  lemma AddEnds(s: State, t: nat, list: seq<Node>)
    requires Inv(s, list) && t < |s.pcs| && (s.pcs[t].Adding() || s.pcs[t].SetFlag?)
    ensures Ends(s, t, 27)
  {
    hide Ends, Inv;
    if s.pcs[t].SetFlag? {
      FlagAny(s, t, list);
      EndsLater(s, t, 24, 27);
    } else if s.pcs[t].AddLoadHead? {
      AddHeadAny(s, t, list);
      EndsLater(s, t, 23, 27);
    } else if s.pcs[t].PushHead? {
      PushAny(s, t, list);
      EndsLater(s, t, 24, 27);
    } else if s.pcs[t].GiveBack? {
      BackAny(s, t, list);
    } else if s.pcs[t].StoreRefs? {
      StoreRefsAny(s, t, list);
      EndsLater(s, t, 25, 27);
    } else {
      StoreAny(s, t, list);
      EndsLater(s, t, 26, 27);
    }
  }

  /** No call ever waits for another thread: in every run, from any moment on, whichever call a thread is in and
      wherever the others stand, it alone ends within 27 operations. */
  lemma NeverBlocked(run: seq<State>, i: nat, t: nat)
    requires IsRun(run) && i < |run| && t < |run[i].pcs|
    ensures Ends(run[i], t, 27)
  {
    hide Ends, IsRun, Inv;
    var list := RunKeeps(run, i);
    if run[i].pcs[t].Idle? {
      IdleEnds(run[i], t, 27);
    } else if run[i].pcs[t].Adding() || run[i].pcs[t].SetFlag? {
      AddEnds(run[i], t, list);
    } else {
      GetEnds(run[i], t, list);
      EndsLater(run[i], t, 24, 27);
    }
  }
}
