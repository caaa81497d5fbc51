/** The counter protocol by which consumers claim elements of one producer's queue: an optimistic count,
    an overcommit correction, and the head index. One atomic operation a step, any number of consumers. */
module DequeueProtocol {

  /** What became of a ticket once its owner has compared it with the tail. */
  datatype Fate = Undecided | Decided(actual: nat)

  /** A ticket: the elements asked for when `dequeueOptimisticCount` was raised, the overcommit value the
      owner had read before that, and how far the owner has got since. */
  datatype Ticket = Ticket(desired: nat, read: int, fate: Fate, gave: bool, took: bool)

  /** The next atomic operation of a consumer. A single dequeue is a bulk dequeue of at most one. */
  datatype Pc =
    | Idle
    | LoadOver(tail: int, max: nat)
    | LoadOptimistic(tail: int, over: int, max: nat)
    | RaiseOptimistic(over: int, desired: nat)
    | LoadTail(ticket: nat)
    | RaiseOver(ticket: nat)
    | RaiseHead(ticket: nat)

  /** The producer's queue; `tailIndex` is the number of items enqueued. `tickets` and `claims` record the
      history: every ticket in the order taken, and every run of indices claimed from the head. */
  datatype State<T> = State(items: seq<T>, head: int, optimistic: int, over: int,
                            pcs: seq<Pc>, tickets: seq<Ticket>, claims: seq<(int, nat)>)

  datatype Action<T> = Enqueue(items: seq<T>) | Start(thread: nat, max: nat) | Step(thread: nat)

  datatype Measure = Asked | Won | Lost | Given | Taken

  function Of(m: Measure, t: Ticket): nat {
    match m
    case Asked => t.desired
    case Won => WonBy(t)
    case Lost => LostBy(t)
    case Given => if t.gave then LostBy(t) else 0
    case Taken => if t.took then WonBy(t) else 0
  }

  function WonBy(t: Ticket): nat {
    if t.fate.Decided? then t.fate.actual else 0
  }

  function LostBy(t: Ticket): nat {
    if t.fate.Decided? && t.fate.actual <= t.desired then t.desired - t.fate.actual else 0
  }

  function Sum(m: Measure, ts: seq<Ticket>): nat {
    if ts == [] then 0 else Sum(m, ts[..|ts| - 1]) + Of(m, ts[|ts| - 1])
  }

  /** `myDequeueCount`: the optimistic count before a ticket was added. */
  function CountBefore(ts: seq<Ticket>, k: nat): int
    requires k < |ts|
  {
    Sum(Asked, ts[..k])
  }

  predicate PcOk<T>(s: State<T>, pc: Pc) {
    match pc
    case LoadTail(k) => k < |s.tickets| && s.tickets[k].fate == Undecided && !s.tickets[k].gave && !s.tickets[k].took
    case RaiseOver(k) =>
      k < |s.tickets| && s.tickets[k].fate.Decided? && !s.tickets[k].gave &&
      s.tickets[k].took == (s.tickets[k].fate.actual == 0)
    case RaiseHead(k) =>
      k < |s.tickets| && s.tickets[k].fate.Decided? && s.tickets[k].gave && !s.tickets[k].took
    case _ => true
  }

  predicate Enabled<T>(s: State<T>, a: Action<T>) {
    match a
    case Enqueue(_) => true
    case Start(t, _) => t < |s.pcs| && s.pcs[t] == Idle
    case Step(t) => t < |s.pcs| && s.pcs[t] != Idle && PcOk(s, s.pcs[t])
  }

  function Min(a: int, b: int): int {
    if a < b then a else b
  }

  function Next<T>(s: State<T>, a: Action<T>): State<T>
    requires Enabled(s, a)
  {
    match a
    case Enqueue(xs) => s.(items := s.items + xs)
    case Start(t, max) => s.(pcs := s.pcs[t := LoadOver(|s.items|, max)])
    case Step(t) =>
      match s.pcs[t]
      case Idle => s
      case LoadOver(tail, max) => s.(pcs := s.pcs[t := LoadOptimistic(tail, s.over, max)])
      case LoadOptimistic(tail, over, max) =>
        var desired := tail - (s.optimistic - over);
        if 0 < desired then s.(pcs := s.pcs[t := RaiseOptimistic(over, Min(desired, max))])
        else s.(pcs := s.pcs[t := Idle])
      case RaiseOptimistic(over, desired) =>
        s.(optimistic := s.optimistic + desired,
           tickets := s.tickets + [Ticket(desired, over, Undecided, false, false)],
           pcs := s.pcs[t := LoadTail(|s.tickets|)])
      case LoadTail(k) =>
        var ticket := s.tickets[k];
        var left := |s.items| - (CountBefore(s.tickets, k) - ticket.read);
        if 0 < left then
          var actual := Min(ticket.desired, left);
          if actual < ticket.desired then
            s.(tickets := s.tickets[k := ticket.(fate := Decided(actual), took := actual == 0)],
               pcs := s.pcs[t := RaiseOver(k)])
          else
            s.(tickets := s.tickets[k := ticket.(fate := Decided(actual), gave := true)],
               pcs := s.pcs[t := RaiseHead(k)])
        else
          s.(tickets := s.tickets[k := ticket.(fate := Decided(0), took := true)],
             pcs := s.pcs[t := RaiseOver(k)])
      case RaiseOver(k) =>
        var ticket := s.tickets[k];
        s.(over := s.over + (ticket.desired - ticket.fate.actual),
           tickets := s.tickets[k := ticket.(gave := true)],
           pcs := s.pcs[t := if ticket.fate.actual > 0 then RaiseHead(k) else Idle])
      case RaiseHead(k) =>
        var ticket := s.tickets[k];
        s.(head := s.head + ticket.fate.actual,
           tickets := s.tickets[k := ticket.(took := true)],
           claims := s.claims + [(s.head, ticket.fate.actual)],
           pcs := s.pcs[t := Idle])
  }

  // ----- the invariant

  ghost predicate TicketOk<T>(s: State<T>, k: nat)
    requires k < |s.tickets|
  {
    var t := s.tickets[k];
    // the overcommit value a ticket's owner read counts only what smaller tickets lost
    && t.read <= Sum(Lost, s.tickets[..k])
    && (t.fate.Decided? ==> t.fate.actual <= t.desired)
    && (t.fate.Undecided? ==> !t.gave && !t.took)
    // what it won was there when it looked at the tail
    && (Of(Won, t) > 0 ==> CountBefore(s.tickets, k) - t.read + Of(Won, t) <= |s.items|)
    // its owner is still at work unless it is settled
    && (Settled(t) || exists u: nat :: Owner(s, u, k))
  }

  predicate Settled(t: Ticket) {
    t.fate.Decided? && t.gave && t.took
  }

  predicate Owner<T>(s: State<T>, u: nat, k: nat) {
    u < |s.pcs| && Owns(s.pcs[u], k)
  }

  predicate Owns(pc: Pc, k: nat) {
    (pc.LoadTail? || pc.RaiseOver? || pc.RaiseHead?) && pc.ticket == k
  }

  /** Readings a consumer without a ticket holds are not ahead of what has been lost. */
  ghost predicate ReadOk<T>(s: State<T>, pc: Pc) {
    pc.LoadOptimistic? || pc.RaiseOptimistic? ==> pc.over <= Sum(Lost, s.tickets)
  }

  ghost predicate ClaimsOk(claims: seq<(int, nat)>, head: int) {
    if claims == [] then head == 0
    else
      var c := claims[|claims| - 1];
      head == c.0 + c.1 && ClaimsOk(claims[..|claims| - 1], c.0)
  }

  ghost predicate Inv<T>(s: State<T>) {
    && s.optimistic == Sum(Asked, s.tickets)
    && s.over == Sum(Given, s.tickets)
    && s.head == Sum(Taken, s.tickets)
    && ClaimsOk(s.claims, s.head)
    && (forall k :: 0 <= k < |s.tickets| ==> TicketOk(s, k))
    && (forall u :: 0 <= u < |s.pcs| ==> PcOk(s, s.pcs[u]) && ReadOk(s, s.pcs[u]))
    && (forall u: nat, v: nat, k: nat :: u != v && Owner(s, u, k) ==> !Owner(s, v, k))
  }

  // ----- sums

  lemma {:induction false} SumUpdate(m: Measure, ts: seq<Ticket>, k: nat, t: Ticket)
    requires k < |ts|
    ensures Sum(m, ts[k := t]) == Sum(m, ts) - Of(m, ts[k]) + Of(m, t)
    ensures Sum(m, ts) >= Of(m, ts[k])
  {
    var n := |ts| - 1;
    if k == n {
      assert ts[k := t][..n] == ts[..n];
    } else {
      assert ts[k := t][..n] == ts[..n][k := t];
      SumUpdate(m, ts[..n], k, t);
    }
  }

  lemma SumAppend(m: Measure, ts: seq<Ticket>, t: Ticket)
    ensures Sum(m, ts + [t]) == Sum(m, ts) + Of(m, t)
  {
    assert (ts + [t])[..|ts|] == ts;
  }

  /** A prefix's sum after one ticket changes. */
  lemma SumPrefix(m: Measure, ts: seq<Ticket>, k: nat, t: Ticket, j: nat)
    requires k < |ts| && j <= |ts|
    ensures Sum(m, ts[k := t][..j]) == Sum(m, ts[..j]) + if k < j then Of(m, t) as int - Of(m, ts[k]) else 0
  {
    if k < j {
      assert ts[k := t][..j] == ts[..j][k := t];
      SumUpdate(m, ts[..j], k, t);
    } else {
      assert ts[k := t][..j] == ts[..j];
    }
  }

  lemma {:induction false} SumOrder(ts: seq<Ticket>)
    requires forall k :: 0 <= k < |ts| ==> ts[k].fate.Decided? ==> ts[k].fate.actual <= ts[k].desired
    ensures Sum(Won, ts) + Sum(Lost, ts) <= Sum(Asked, ts)
    ensures Sum(Given, ts) <= Sum(Lost, ts)
    ensures Sum(Taken, ts) <= Sum(Won, ts)
  {
    if ts != [] {
      SumOrder(ts[..|ts| - 1]);
    }
  }

  lemma {:induction false} SumWhole(m: Measure, ts: seq<Ticket>)
    ensures Sum(m, ts[..|ts|]) == Sum(m, ts)
  {
    assert ts[..|ts|] == ts;
  }

  /** The heart of the protocol: all tickets together have won no more than has been enqueued. */
  lemma {:induction false} WonIsThere<T>(s: State<T>, n: nat)
    requires Inv(s) && n <= |s.tickets|
    ensures Sum(Won, s.tickets[..n]) <= |s.items|
  {
    if n > 0 {
      WonIsThere(s, n - 1);
      assert s.tickets[..n][..n - 1] == s.tickets[..n - 1];
      assert TicketOk(s, n - 1);
      if Of(Won, s.tickets[n - 1]) > 0 {
        var smaller := s.tickets[..n - 1];
        forall k | 0 <= k < |smaller|
          ensures smaller[k].fate.Decided? ==> smaller[k].fate.actual <= smaller[k].desired
        {
          assert TicketOk(s, k);
        }
        SumOrder(smaller);
      }
    }
  }

  /** `headIndex` never passes `tailIndex`. */
  lemma HeadWithinTail<T>(s: State<T>)
    requires Inv(s)
    ensures 0 <= s.head <= |s.items|
    ensures s.over <= s.optimistic
  {
    forall k | 0 <= k < |s.tickets|
      ensures s.tickets[k].fate.Decided? ==> s.tickets[k].fate.actual <= s.tickets[k].desired
    {
      assert TicketOk(s, k);
    }
    SumOrder(s.tickets);
    WonIsThere(s, |s.tickets|);
    SumWhole(Won, s.tickets);
  }

  // ----- every step keeps the invariant

  /** A step that touches no ticket. */
  lemma PcChange<T>(s: State<T>, t: nat, pc: Pc)
    requires Inv(s) && t < |s.pcs| && !(s.pcs[t].LoadTail? || s.pcs[t].RaiseOver? || s.pcs[t].RaiseHead?)
    requires PcOk(s, pc) && ReadOk(s, pc) && !(pc.LoadTail? || pc.RaiseOver? || pc.RaiseHead?)
    ensures Inv(s.(pcs := s.pcs[t := pc]))
  {
    var s' := s.(pcs := s.pcs[t := pc]);
    forall k | 0 <= k < |s'.tickets|
      ensures TicketOk(s', k)
    {
      assert TicketOk(s, k);
      if !Settled(s.tickets[k]) {
        var u: nat :| Owner(s, u, k);
        assert Owner(s', u, k);
      }
    }
    forall u | 0 <= u < |s'.pcs|
      ensures PcOk(s', s'.pcs[u]) && ReadOk(s', s'.pcs[u])
    {
      assert u != t ==> PcOk(s, s.pcs[u]) && ReadOk(s, s.pcs[u]);
    }
    forall u: nat, v: nat, k: nat | u != v && Owner(s', u, k)
      ensures !Owner(s', v, k)
    {
      assert Owner(s, u, k);
      assert Owner(s', v, k) ==> Owner(s, v, k);
    }
  }

  lemma EnqueueKeeps<T>(s: State<T>, xs: seq<T>)
    requires Inv(s)
    ensures Inv(s.(items := s.items + xs))
  {
    var s' := s.(items := s.items + xs);
    forall k | 0 <= k < |s'.tickets|
      ensures TicketOk(s', k)
    {
      assert TicketOk(s, k);
      if !Settled(s.tickets[k]) {
        var u: nat :| Owner(s, u, k);
        assert Owner(s', u, k);
      }
    }
    forall u | 0 <= u < |s'.pcs|
      ensures PcOk(s', s'.pcs[u]) && ReadOk(s', s'.pcs[u])
    {
      assert PcOk(s, s.pcs[u]) && ReadOk(s, s.pcs[u]);
    }
    forall u: nat, v: nat, k: nat | u != v && Owner(s', u, k)
      ensures !Owner(s', v, k)
    {
      assert Owner(s, u, k) && (Owner(s', v, k) ==> Owner(s, v, k));
    }
  }

  lemma LostBounds<T>(s: State<T>)
    requires Inv(s)
    ensures s.over <= Sum(Lost, s.tickets)
  {
    forall k | 0 <= k < |s.tickets|
      ensures s.tickets[k].fate.Decided? ==> s.tickets[k].fate.actual <= s.tickets[k].desired
    {
      assert TicketOk(s, k);
    }
    SumOrder(s.tickets);
  }

  /** Taking a ticket: its overcommit reading is covered by the tickets before it, all of them. */
  lemma RaiseTickets<T>(s: State<T>, t: nat, k: nat)
    requires Inv(s) && t < |s.pcs| && s.pcs[t].RaiseOptimistic? && k <= |s.tickets|
    ensures TicketOk(Next(s, Step(t)), k)
  {
    var s' := Next(s, Step(t));
    assert s'.tickets[..k] == s.tickets[..k];
    if k < |s.tickets| {
      assert TicketOk(s, k);
      if !Settled(s.tickets[k]) {
        var u: nat :| Owner(s, u, k);
        assert Owner(s', u, k);
      }
    } else {
      assert ReadOk(s, s.pcs[t]);
      SumWhole(Lost, s.tickets);
      assert Owner(s', t, k);
    }
  }

  lemma RaiseSums<T>(s: State<T>, t: nat)
    requires Inv(s) && t < |s.pcs| && s.pcs[t].RaiseOptimistic?
    ensures
      var s' := Next(s, Step(t));
      && s'.optimistic == Sum(Asked, s'.tickets) && s'.over == Sum(Given, s'.tickets)
      && s'.head == Sum(Taken, s'.tickets) && Sum(Lost, s'.tickets) == Sum(Lost, s.tickets)
  {
    hide TicketOk, PcOk, ReadOk, Owner;
    var s' := Next(s, Step(t));
    var new_ := s'.tickets[|s.tickets|];
    assert s'.tickets == s.tickets + [new_];
    SumAppend(Asked, s.tickets, new_);
    SumAppend(Lost, s.tickets, new_);
    SumAppend(Given, s.tickets, new_);
    SumAppend(Taken, s.tickets, new_);
  }

  lemma RaiseOptimisticKeeps<T>(s: State<T>, t: nat)
    requires Inv(s) && t < |s.pcs| && s.pcs[t].RaiseOptimistic?
    ensures Inv(Next(s, Step(t)))
  {
    hide Sum, TicketOk;
    var s' := Next(s, Step(t));
    var n := |s.tickets|;
    RaiseSums(s, t);
    forall k | 0 <= k < |s'.tickets|
      ensures TicketOk(s', k)
    {
      RaiseTickets(s, t, k);
    }
    forall u | 0 <= u < |s'.pcs|
      ensures PcOk(s', s'.pcs[u]) && ReadOk(s', s'.pcs[u])
    {
      assert PcOk(s, s.pcs[u]) && ReadOk(s, s.pcs[u]);
    }
    forall u: nat, v: nat, k: nat | u != v && Owner(s', u, k)
      ensures !Owner(s', v, k)
    {
      assert u < |s.pcs| && PcOk(s, s.pcs[u]);
      assert u != t ==> Owner(s, u, k) && k < n;
      assert v < |s.pcs| ==> PcOk(s, s.pcs[v]);
      assert v != t && Owner(s', v, k) ==> Owner(s, v, k) && k < n;
    }
  }

  /** A ticket's owner moves its ticket along. */
  ghost predicate Advances<T>(s: State<T>, t: nat, k: nat, s': State<T>) {
    && t < |s.pcs| && k < |s.tickets| && Owns(s.pcs[t], k)
    && |s'.pcs| == |s.pcs| && s'.pcs == s.pcs[t := s'.pcs[t]]
    && |s'.tickets| == |s.tickets| && s'.tickets == s.tickets[k := s'.tickets[k]]
    && s'.items == s.items && s'.optimistic == s.optimistic
    && s'.tickets[k].desired == s.tickets[k].desired && s'.tickets[k].read == s.tickets[k].read
    && s'.tickets[k].fate.Decided? && s'.tickets[k].fate.actual <= s'.tickets[k].desired
    && (s.tickets[k].fate.Decided? ==> s'.tickets[k].fate == s.tickets[k].fate)
    && (Settled(s'.tickets[k]) || Owns(s'.pcs[t], k))
    && (s'.pcs[t] == Idle || Owns(s'.pcs[t], k)) && PcOk(s', s'.pcs[t])
    && s'.over == s.over + (Of(Given, s'.tickets[k]) as int - Of(Given, s.tickets[k]))
    && s'.head == s.head + (Of(Taken, s'.tickets[k]) as int - Of(Taken, s.tickets[k]))
    && ClaimsOk(s'.claims, s'.head)
    && (Of(Won, s'.tickets[k]) > 0 ==>
          CountBefore(s.tickets, k) - s.tickets[k].read + Of(Won, s'.tickets[k]) <= |s.items|)
  }

  lemma TicketsAdvance<T>(s: State<T>, t: nat, k: nat, s': State<T>, j: nat)
    requires Inv(s) && Advances(s, t, k, s') && j < |s.tickets|
    ensures TicketOk(s', j)
  {
    assert TicketOk(s, j) && TicketOk(s, k);
    SumPrefix(Lost, s.tickets, k, s'.tickets[k], j);
    SumPrefix(Asked, s.tickets, k, s'.tickets[k], j);
    if j == k {
      assert Owner(s', t, k) || Settled(s'.tickets[k]);
    } else if !Settled(s.tickets[j]) {
      var u: nat :| Owner(s, u, j);
      assert Owner(s', u, j);
    }
  }

  lemma AdvanceKeeps<T>(s: State<T>, t: nat, k: nat, s': State<T>)
    requires Inv(s) && Advances(s, t, k, s')
    ensures Inv(s')
  {
    assert TicketOk(s, k);
    SumUpdate(Asked, s.tickets, k, s'.tickets[k]);
    SumUpdate(Lost, s.tickets, k, s'.tickets[k]);
    SumUpdate(Given, s.tickets, k, s'.tickets[k]);
    SumUpdate(Taken, s.tickets, k, s'.tickets[k]);
    forall j | 0 <= j < |s'.tickets|
      ensures TicketOk(s', j)
    {
      TicketsAdvance(s, t, k, s', j);
    }
    assert Owner(s, t, k);
    forall u | 0 <= u < |s'.pcs|
      ensures PcOk(s', s'.pcs[u]) && ReadOk(s', s'.pcs[u])
    {
      if u != t {
        assert PcOk(s, s.pcs[u]) && ReadOk(s, s.pcs[u]) && !Owner(s, u, k);
      }
    }
    forall u: nat, v: nat, j: nat | u != v && Owner(s', u, j)
      ensures !Owner(s', v, j)
    {
      assert Owner(s, u, j);
      assert Owner(s', v, j) ==> Owner(s, v, j);
    }
  }

  /** Comparing a ticket with the tail. */
  lemma LoadTailKeeps<T>(s: State<T>, t: nat)
    requires Inv(s) && t < |s.pcs| && s.pcs[t].LoadTail? && PcOk(s, s.pcs[t])
    ensures Inv(Next(s, Step(t)))
  {
    hide Sum, Inv;
    assert ClaimsOk(s.claims, s.head) by { ClaimsFromInv(s); }
    assert Advances(s, t, s.pcs[t].ticket, Next(s, Step(t)));
    AdvanceKeeps(s, t, s.pcs[t].ticket, Next(s, Step(t)));
  }

  lemma ClaimsFromInv<T>(s: State<T>)
    requires Inv(s)
    ensures ClaimsOk(s.claims, s.head)
    ensures forall k :: 0 <= k < |s.tickets| ==> TicketOk(s, k)
  {
  }

  lemma RaiseOverKeeps<T>(s: State<T>, t: nat)
    requires Inv(s) && t < |s.pcs| && s.pcs[t].RaiseOver? && PcOk(s, s.pcs[t])
    ensures Inv(Next(s, Step(t)))
  {
    hide Sum, Inv;
    ClaimsFromInv(s);
    assert TicketOk(s, s.pcs[t].ticket);
    AdvanceKeeps(s, t, s.pcs[t].ticket, Next(s, Step(t)));
  }

  lemma RaiseHeadKeeps<T>(s: State<T>, t: nat)
    requires Inv(s) && t < |s.pcs| && s.pcs[t].RaiseHead? && PcOk(s, s.pcs[t])
    ensures Inv(Next(s, Step(t)))
  {
    hide Sum, Inv;
    ClaimsFromInv(s);
    assert TicketOk(s, s.pcs[t].ticket);
    assert Next(s, Step(t)).claims[..|s.claims|] == s.claims;
    AdvanceKeeps(s, t, s.pcs[t].ticket, Next(s, Step(t)));
  }

  lemma StepKeeps<T>(s: State<T>, a: Action<T>)
    requires Inv(s) && Enabled(s, a)
    ensures Inv(Next(s, a))
  {
    match a {
      case Enqueue(xs) => EnqueueKeeps(s, xs);
      case Start(t, max) => PcChange(s, t, LoadOver(|s.items|, max));
      case Step(t) =>
        var pc, pc' := s.pcs[t], Next(s, a).pcs[t];
        assert PcOk(s, pc) && ReadOk(s, pc);
        if pc.LoadTail? {
          LoadTailKeeps(s, t);
        } else if pc.RaiseOver? {
          RaiseOverKeeps(s, t);
        } else if pc.RaiseHead? {
          RaiseHeadKeeps(s, t);
        } else if pc.RaiseOptimistic? {
          RaiseOptimisticKeeps(s, t);
        } else {
          hide Inv;
          LostBounds(s);
          PcChange(s, t, pc');
        }
    }
  }

  // ----- whole runs

  predicate Init<T>(s: State<T>) {
    && s.items == [] && s.head == 0 && s.optimistic == 0 && s.over == 0 && s.tickets == [] && s.claims == []
    && forall u :: 0 <= u < |s.pcs| ==> s.pcs[u] == Idle
  }

  ghost predicate IsStep<T(!new)>(s: State<T>, s': State<T>) {
    exists a :: Enabled(s, a) && s' == Next(s, a)
  }

  ghost predicate IsRun<T(!new)>(run: seq<State<T>>) {
    && run != [] && Init(run[0])
    && forall i, j :: 0 <= i && j == i + 1 < |run| ==> IsStep(run[i], run[j])
  }

  lemma {:induction false} RunKeeps<T(!new)>(run: seq<State<T>>, i: nat)
    requires IsRun(run) && i < |run|
    ensures Inv(run[i])
  {
    if i > 0 {
      RunKeeps(run, i - 1);
      assert IsStep(run[i - 1], run[i]);
      var a :| Enabled(run[i - 1], a) && run[i] == Next(run[i - 1], a);
      StepKeeps(run[i - 1], a);
    }
  }

  /** In every state of every run: the head has not passed the tail, so the run of indices a consumer is
      about to claim holds enqueued elements only. */
  lemma ClaimIsThere<T(!new)>(run: seq<State<T>>, i: nat, t: nat)
    requires IsRun(run) && i < |run| && t < |run[i].pcs|
    ensures 0 <= run[i].head <= |run[i].items|
    ensures run[i].pcs[t].RaiseHead? ==> Enabled(run[i], Step(t))
    ensures run[i].pcs[t].RaiseHead? ==> Next(run[i], Step(t)).head <= |run[i].items|
  {
    RunKeeps(run, i);
    HeadWithinTail(run[i]);
    if run[i].pcs[t].RaiseHead? {
      assert PcOk(run[i], run[i].pcs[t]);
      StepKeeps(run[i], Step(t));
      HeadWithinTail(Next(run[i], Step(t)));
    }
  }

  /** No index is claimed twice, and none is skipped: the claims, in order, are consecutive runs from 0 to
      the head. */
  lemma {:induction false} ClaimsDisjoint(claims: seq<(int, nat)>, head: int, i: nat, j: nat)
    requires ClaimsOk(claims, head) && i < j < |claims|
    ensures 0 <= claims[i].0 && claims[i].0 + claims[i].1 <= claims[j].0 && claims[j].0 + claims[j].1 <= head
  {
    var n := |claims| - 1;
    if j < n {
      ClaimsDisjoint(claims[..n], claims[n].0, i, j);
    } else {
      ClaimsWithin(claims[..n], claims[n].0, i);
    }
  }

  /** In every state of every run: two claims share no index, and all claimed indices have been enqueued. */
  lemma ClaimedOnce<T(!new)>(run: seq<State<T>>, i: nat, a: nat, b: nat)
    requires IsRun(run) && i < |run| && a < b < |run[i].claims|
    ensures
      var x, y := run[i].claims[a], run[i].claims[b];
      0 <= x.0 && x.0 + x.1 <= y.0 && y.0 + y.1 <= |run[i].items|
  {
    RunKeeps(run, i);
    HeadWithinTail(run[i]);
    ClaimsDisjoint(run[i].claims, run[i].head, a, b);
  }

  lemma {:induction false} ClaimsWithin(claims: seq<(int, nat)>, head: int, i: nat)
    requires ClaimsOk(claims, head) && i < |claims|
    ensures 0 <= claims[i].0 && claims[i].0 + claims[i].1 <= head
  {
    var n := |claims| - 1;
    ClaimsNonNegative(claims[..n], claims[n].0);
    if i < n {
      ClaimsWithin(claims[..n], claims[n].0, i);
    }
  }

  lemma {:induction false} ClaimsNonNegative(claims: seq<(int, nat)>, head: int)
    requires ClaimsOk(claims, head)
    ensures head >= 0
  {
    if claims != [] {
      ClaimsNonNegative(claims[..|claims| - 1], claims[|claims| - 1].0);
    }
  }

  /** With no consumer at work the corrected optimistic count is the head index. */
  lemma QuietCounters<T>(s: State<T>)
    requires Inv(s) && forall u :: 0 <= u < |s.pcs| ==> s.pcs[u] == Idle
    ensures s.optimistic - s.over == s.head
  {
    forall k | 0 <= k < |s.tickets|
      ensures Settled(s.tickets[k]) && s.tickets[k].fate.actual <= s.tickets[k].desired
    {
      assert TicketOk(s, k);
    }
    SettledSums(s.tickets);
  }

  lemma {:induction false} SettledSums(ts: seq<Ticket>)
    requires forall k :: 0 <= k < |ts| ==> Settled(ts[k]) && ts[k].fate.actual <= ts[k].desired
    ensures Sum(Asked, ts) - Sum(Given, ts) == Sum(Taken, ts)
  {
    if ts != [] {
      SettledSums(ts[..|ts| - 1]);
    }
  }

  /** No consumer ever waits for another: whoever is not idle can take its next step, and whoever is can start a call.
      The producer waits for nobody either. */
  lemma NeverBlocked<T(!new)>(run: seq<State<T>>, i: nat, t: nat)
    requires IsRun(run) && i < |run| && t < |run[i].pcs|
    ensures run[i].pcs[t] != Idle ==> Enabled(run[i], Step(t))
    ensures run[i].pcs[t] == Idle ==> forall max :: Enabled(run[i], Start(t, max))
    ensures forall xs :: Enabled(run[i], Enqueue(xs))
  {
    RunKeeps(run, i);
  }

  /** A consumer running alone to the end of its call; six operations are enough. */
  ghost function Alone<T>(s: State<T>, t: nat, steps: nat): (r: State<T>)
    requires Inv(s) && t < |s.pcs|
    ensures |r.pcs| == |s.pcs|
    decreases steps
  {
    if steps == 0 || s.pcs[t] == Idle then s
    else
      StepKeeps(s, Step(t));
      Alone(Next(s, Step(t)), t, steps - 1)
  }

  lemma AloneStep<T>(s: State<T>, t: nat, steps: nat)
    requires Inv(s) && t < |s.pcs| && s.pcs[t] != Idle && steps > 0
    ensures Enabled(s, Step(t)) && Inv(Next(s, Step(t))) && t < |Next(s, Step(t)).pcs|
    ensures Alone(s, t, steps) == Alone(Next(s, Step(t)), t, steps - 1)
  {
    StepKeeps(s, Step(t));
  }

  /** When nobody else is at work, a dequeue of up to `max` claims the first min(max, size) elements: it
      fails exactly on an empty queue, and then leaves everything as it was. */
  lemma LoneDequeue<T>(s: State<T>, t: nat, max: nat)
    requires Inv(s) && t < |s.pcs| && max > 0
    requires forall u :: 0 <= u < |s.pcs| ==> s.pcs[u] == Idle
    ensures Inv(Next(s, Start(t, max)))
    ensures Alone(Next(s, Start(t, max)), t, 6).pcs[t] == Idle
    ensures Alone(Next(s, Start(t, max)), t, 6).claims ==
              s.claims + if s.head < |s.items| then [(s.head, Min(max, |s.items| - s.head))] else []
    ensures s.head == |s.items| ==> Alone(Next(s, Start(t, max)), t, 6) == s
  {
    hide Inv, Next, Alone;
    QuietCounters(s);
    var s3 := LoneReads(s, t, max);
    if s.head < |s.items| {
      LoneClaims(s3, t, 4);
    } else {
      AloneEnds(s3, t, 4);
    }
  }

  /** Its first two operations: alone, it sees how many elements there are. */
  lemma LoneReads<T>(s: State<T>, t: nat, max: nat) returns (s3: State<T>)
    requires Inv(s) && t < |s.pcs| && max > 0
    requires forall u :: 0 <= u < |s.pcs| ==> s.pcs[u] == Idle
    ensures Inv(Next(s, Start(t, max))) && Inv(s3) && |s3.pcs| == |s.pcs| == |Next(s, Start(t, max)).pcs|
    ensures Alone(Next(s, Start(t, max)), t, 6) == Alone(s3, t, 4)
    ensures s3 == s.(pcs := s.pcs[t :=
                     if s.head < |s.items| then RaiseOptimistic(s.over, Min(max, |s.items| - s.head)) else Idle])
  {
    hide Inv, Alone;
    QuietCounters(s);
    HeadWithinTail(s);
    StepKeeps(s, Start(t, max));
    var s1 := Next(s, Start(t, max));
    AloneStep(s1, t, 6);
    var s2 := Next(s1, Step(t));
    AloneStep(s2, t, 5);
    s3 := Next(s2, Step(t));
  }

  /** The other three: nothing is lost on the way. */
  lemma LoneClaims<T>(s: State<T>, t: nat, steps: nat)
    requires Inv(s) && t < |s.pcs| && steps > 3
    requires s.pcs[t].RaiseOptimistic? && s.pcs[t].over == s.over
    requires 0 < s.pcs[t].desired <= |s.items| - s.head && s.optimistic - s.over == s.head
    ensures Alone(s, t, steps).pcs[t] == Idle
    ensures Alone(s, t, steps).claims == s.claims + [(s.head, s.pcs[t].desired)]
  {
    hide Inv, Alone, TicketOk;
    InvSums(s);
    AloneStep(s, t, steps);
    var s4 := Next(s, Step(t));
    assert s4.tickets[..|s.tickets|] == s.tickets;
    AloneStep(s4, t, steps - 1);
    var s5 := Next(s4, Step(t));
    assert s5.pcs[t] == RaiseHead(|s.tickets|);
    AloneStep(s5, t, steps - 2);
    AloneEnds(Next(s5, Step(t)), t, steps - 3);
  }

  lemma InvSums<T>(s: State<T>)
    requires Inv(s)
    ensures s.optimistic == Sum(Asked, s.tickets)
  {
  }

  lemma AloneEnds<T>(s: State<T>, t: nat, steps: nat)
    requires Inv(s) && t < |s.pcs| && s.pcs[t] == Idle
    ensures Alone(s, t, steps) == s
  {
  }
}

/** `circular_less_than` on the machine's wrapped counters. */
module CircularOrder {
  const WORD := 0x1_0000_0000_0000_0000
  const HALF := 0x8000_0000_0000_0000

  predicate CircularLessThan(a: int, b: int)
    requires 0 <= a < WORD && 0 <= b < WORD
  {
    (a - b) % WORD > HALF
  }

  /** It orders counters that have wrapped any number of times, as long as they are less than half a word
      apart. */
  lemma ComparesWrapped(a: int, b: int)
    requires -HALF < b - a < HALF
    ensures CircularLessThan(a % WORD, b % WORD) <==> a < b
  {
    var d := a % WORD - b % WORD;
    assert d == (a - b) - WORD * (a / WORD - b / WORD);
    SameResidue(d, a - b, a / WORD - b / WORD);
    if a < b {
      SameResidue(a - b + WORD, a - b, -1);
    }
  }

  lemma SameResidue(x: int, y: int, k: int)
    requires x == y - WORD * k
    ensures x % WORD == y % WORD
  {
    var q, r := y / WORD, y % WORD;
    assert x == WORD * (q - k) + r;
    assert x / WORD == q - k;
  }

  /** At exactly half a word the order is lost: neither counter is less. */
  lemma HalfIsUnordered(a: int)
    ensures !CircularLessThan(a % WORD, (a + HALF) % WORD)
    ensures !CircularLessThan((a + HALF) % WORD, a % WORD)
  {
    var r := a % WORD;
    var s := (a + HALF) % WORD;
    SameResidue(r + HALF, a + HALF, a / WORD);
    assert s == r + HALF || s == r - HALF by {
      if r + HALF >= WORD {
        SameResidue(r - HALF, r + HALF, 1);
      }
    }
    assert (0 - HALF) % WORD == HALF && HALF % WORD == HALF;
  }

  /** The single dequeue's test and the bulk dequeue's are one test. */
  lemma SingleIsBulkOfOne(tail: int, effective: int)
    requires -HALF < tail - effective < HALF
    ensures CircularLessThan(effective % WORD, tail % WORD) <==> CircularLessThan(0, (tail - effective) % WORD)
  {
    ComparesWrapped(effective, tail);
    ComparesWrapped(0, tail - effective);
  }
}
