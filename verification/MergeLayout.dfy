/** Where a merge puts every clock. Up to the first clock of theirs that ours confirms, theirs gather in front of what
    they leave of ours; there the two are interlaced; from then on each clock of theirs stands right behind the ones
    before it. */
module MergeLayout {
  import opened Options
  import opened VectorClocks
  import opened VectorMerge

  /** The list without the clock of that key. */
  function Drop<K(==)>(cs: seq<Clock<K>>, key: K): seq<Clock<K>> {
    var i := IndexOf(cs, key);
    if i < |cs| then cs[..i] + cs[i + 1..] else cs
  }

  /** Ours without the clocks whose keys are in `u`. */
  function Without<K(==)>(ours: seq<Clock<K>>, u: seq<Clock<K>>): seq<Clock<K>> {
    if u == [] then ours else Drop(Without(ours, u[..|u| - 1]), u[|u| - 1].key)
  }

  /** None of these clocks is confirmed by ours: each is new to us, or newer. */
  ghost predicate Unconfirmed<K>(ours: seq<Clock<K>>, u: seq<Clock<K>>) {
    forall i :: 0 <= i < |u| ==> !Confirms(ours, u[i])
  }

  lemma IndexBehind<K>(a: seq<Clock<K>>, b: seq<Clock<K>>, key: K)
    requires forall i :: 0 <= i < |a| ==> a[i].key != key
    ensures IndexOf(a + b, key) == |a| + IndexOf(b, key)
  {
    hide IndexOf;
    var i, j := IndexOf(a + b, key), IndexOf(b, key);
    IndexFirst(a + b, key);
    IndexFirst(b, key);
    assert j < |b| ==> (a + b)[|a| + j].key == key;
    assert i < |a| + |b| ==> i >= |a| && b[i - |a|].key == key;
  }

  lemma EraseBehind<T>(a: seq<T>, b: seq<T>, i: nat)
    requires i < |b|
    ensures Erase(a + b, |a| + i) == a + (b[..i] + b[i + 1..])
  {
  }

  lemma InsertBetween<T>(a: seq<T>, b: seq<T>, x: T)
    ensures Insert(a + b, |a|, x) == a + [x] + b
  {
  }

  /** The clock put right behind `front`, and the position behind it. */
  function Put<K>(front: seq<Clock<K>>, c: Clock<K>, rest: seq<Clock<K>>, noMatch: bool): Merging<K> {
    Merging(front + [c] + rest, |front| + 1, noMatch)
  }

  lemma PutNew<K>(front: seq<Clock<K>>, rest: seq<Clock<K>>, c: Clock<K>, noMatch: bool)
    requires IndexOf(rest, c.key) == |rest|
    ensures MergeAt(Merging(front + rest, |front|, noMatch), c, |front + rest|, false) ==
            Some(Put(front, c, Drop(rest, c.key), noMatch))
  {
    hide IndexOf, Insert;
    InsertBetween(front, rest, c);
  }

  lemma PutNewer<K>(front: seq<Clock<K>>, rest: seq<Clock<K>>, c: Clock<K>, at: nat, noMatch: bool)
    requires at == |front| + IndexOf(rest, c.key) < |front + rest|
    ensures MergeAt(Merging(front + rest, |front|, noMatch), c, at, true) ==
            Some(Put(front, c, Drop(rest, c.key), noMatch))
  {
    hide IndexOf, Insert, Erase, Drop, VectorMerge.Reorient;
    var less := Drop(rest, c.key);
    assert Erase(front + rest, at) == front + less by {
      DropIs(rest, c.key);
      EraseBehind(front, rest, at - |front|);
    }
    InsertBetween(front, less, c);
  }

  lemma DropIs<K>(cs: seq<Clock<K>>, key: K)
    ensures
      var i := IndexOf(cs, key);
      Drop(cs, key) == if i < |cs| then cs[..i] + cs[i + 1..] else cs
  {
  }

  /** Before any is confirmed, theirs stand in front, in their order, and behind them what they leave of ours. */
  lemma {:induction false} Gathers<K(!new)>(ours: seq<Clock<K>>, u: seq<Clock<K>>)
    requires Distinct(ours) && Distinct(u) && Unconfirmed(ours, u)
    ensures MergeAll(ours, u) == Some(Merging(u + Without(ours, u), |u|, true))
  {
    if u == [] {
      assert u + ours == ours;
    } else {
      var n := |u| - 1;
      var before, c := u[..n], u[n];
      Gathers(ours, before);
      MergeAllKeeps(ours, before);
      GathersOne(ours, before, c);
      assert before + [c] == u;
    }
  }

  lemma GathersOne<K(!new)>(ours: seq<Clock<K>>, u: seq<Clock<K>>, c: Clock<K>)
    requires Distinct(ours) && (forall i :: 0 <= i < |u| ==> u[i].key != c.key) && !Confirms(ours, c)
    requires Inv(Merging(u + Without(ours, u), |u|, true), ours, u)
    ensures MergeOne(Merging(u + Without(ours, u), |u|, true), c) ==
            Some(Put(u, c, Drop(Without(ours, u), c.key), true))
  {
    hide IndexOf, Without, Inv, Before, MergeAt, Drop;
    var rest := Without(ours, u);
    FoundIsOurs(Merging(u + rest, |u|, true), ours, u, c);
    IndexBehind(u, rest, c.key);
    if IndexOf(rest, c.key) < |rest| {
      PutNewer(u, rest, c, |u| + IndexOf(rest, c.key), true);
    } else {
      PutNew(u, rest, c, true);
    }
  }

  /** At the first clock that is confirmed, the ones in front are interlaced with ours before it. */
  lemma FirstConfirmed<K(!new)>(ours: seq<Clock<K>>, u: seq<Clock<K>>, c: Clock<K>)
    requires Distinct(ours) && Distinct(u + [c]) && Unconfirmed(ours, u) && Confirms(ours, c)
    ensures
      var rest := Without(ours, u);
      var p := IndexOf(rest, c.key);
      && p < |rest| && rest[p].key == c.key
      && MergeAll(ours, u + [c]) ==
           Some(Merging(Interleaved(rest[..p], u) + rest[p..], |u| + p + 1, false))
  {
    hide IndexOf, Interleaved, Without, Before, MergeAll, MergeAt;
    var rest := Without(ours, u);
    assert (u + [c])[|u|] == c && forall i :: 0 <= i < |u| ==> (u + [c])[i] == u[i];
    Gathers(ours, u);
    MergeAllKeeps(ours, u);
    var m := Merging(u + rest, |u|, true);
    FoundIsOurs(m, ours, u, c);
    IndexBehind(u, rest, c.key);
    var p := IndexOf(rest, c.key);
    FrontLaced(u, rest, c, p);
    LastOf(ours, u, c);
  }

  lemma FrontLaced<K>(u: seq<Clock<K>>, rest: seq<Clock<K>>, c: Clock<K>, p: nat)
    requires p < |rest|
    ensures MergeAt(Merging(u + rest, |u|, true), c, |u| + p, false) ==
            Some(Merging(Interleaved(rest[..p], u) + rest[p..], |u| + p + 1, false))
  {
    hide Interleaved;
    var s := u + rest;
    assert s[|u|..|u| + p] == rest[..p] && s[..|u|] == u && s[|u| + p..] == rest[p..];
  }

  lemma LastOf<K>(ours: seq<Clock<K>>, u: seq<Clock<K>>, c: Clock<K>)
    ensures MergeAll(ours, u + [c]) == match MergeAll(ours, u) case None => None case Some(m) => MergeOne(m, c)
  {
    hide MergeOne;
    assert (u + [c])[..|u|] == u;
  }

  // ----- from the first match on

  /** The list, cut at the insert position. */
  datatype Placed<K> = Placed(front: seq<Clock<K>>, rest: seq<Clock<K>>)

  function Joined<K>(p: Placed<K>): Merging<K> {
    Merging(p.front + p.rest, |p.front|, false)
  }

  /** One turn after the first match. A clock that is new, or newer than ours in `rest`, goes right behind `front`. A
      confirmed one moves the position behind itself, if it is not there yet. A newer one that ours has in `front` takes
      a clock of `rest` over, which there has to be. */
  function Turned<K(==)>(p: Placed<K>, c: Clock<K>, confirmed: bool, newer: bool): Option<Placed<K>> {
    var j := IndexOf(p.rest, c.key);
    if confirmed then Some(Passed(p, if j < |p.rest| then j + 1 else 0))
    else if newer && j == |p.rest| then
      if p.rest == [] then None else Some(Placed(Drop(p.front, c.key) + [p.rest[0]] + [c], p.rest[1..]))
    else Some(Placed(p.front + [c], Drop(p.rest, c.key)))
  }

  function Passed<K>(p: Placed<K>, n: nat): Placed<K>
    requires n <= |p.rest|
  {
    Placed(p.front + p.rest[..n], p.rest[n..])
  }

  lemma AfterMatch<K(!new)>(ours: seq<Clock<K>>, seen: seq<Clock<K>>, p: Placed<K>, c: Clock<K>)
    requires Distinct(ours) && forall i :: 0 <= i < |seen| ==> seen[i].key != c.key
    requires Inv(Joined(p), ours, seen)
    ensures
      var next := Turned(p, c, Confirms(ours, c), Replaces(ours, c));
      MergeOne(Joined(p), c) == if next.None? then None else Some(Joined(next.value))
  {
    hide IndexOf, Inv, Before, MergeAt, Distinct, Put, Drop, Passed;
    var m := Joined(p);
    FoundIsOurs(m, ours, seen, c);
    MergedDistinct(m, ours, seen);
    var at := IndexOf(m.clocks, c.key);
    Somewhere(p.front, p.rest, c.key);
    if at == |m.clocks| {
      PutNew(p.front, p.rest, c, false);
      PutJoined(p.front, c, Drop(p.rest, c.key));
    } else if Confirms(ours, c) {
      TurnConfirmed(p, c, at);
    } else if at < |p.front| {
      TurnInFront(p, c, at);
    } else {
      PutNewer(p.front, p.rest, c, at, false);
      PutJoined(p.front, c, Drop(p.rest, c.key));
    }
  }

  lemma PutJoined<K>(front: seq<Clock<K>>, c: Clock<K>, rest: seq<Clock<K>>)
    ensures Put(front, c, rest, false) == Joined(Placed(front + [c], rest))
  {
  }

  lemma MergedDistinct<K(!new)>(m: Merging<K>, ours: seq<Clock<K>>, seen: seq<Clock<K>>)
    requires Inv(m, ours, seen)
    ensures Distinct(m.clocks)
  {
  }

  lemma TurnConfirmed<K>(p: Placed<K>, c: Clock<K>, at: nat)
    requires at < |p.front + p.rest|
    requires var j := IndexOf(p.rest, c.key); if at < |p.front| then j == |p.rest| else at == |p.front| + j
    ensures
      var j := IndexOf(p.rest, c.key);
      MergeAt(Joined(p), c, at, false) == Some(Joined(Passed(p, if j < |p.rest| then j + 1 else 0)))
  {
    hide VectorMerge.Reorient, IndexOf;
    var j := IndexOf(p.rest, c.key);
    var n := if j < |p.rest| then j + 1 else 0;
    assert p.front + p.rest[..n] + p.rest[n..] == p.front + p.rest;
  }

  lemma TurnInFront<K>(p: Placed<K>, c: Clock<K>, at: nat)
    requires at == IndexOf(p.front, c.key) < |p.front|
    ensures MergeAt(Joined(p), c, at, true) ==
            if p.rest == [] then None
            else Some(Joined(Placed(Drop(p.front, c.key) + [p.rest[0]] + [c], p.rest[1..])))
  {
    hide IndexOf, Insert, Erase, Drop, VectorMerge.Reorient;
    EraseInFront(p.front, p.rest, at, c);
  }

  lemma Somewhere<K>(front: seq<Clock<K>>, rest: seq<Clock<K>>, key: K)
    ensures
      var at, i, j := IndexOf(front + rest, key), IndexOf(front, key), IndexOf(rest, key);
      at == if i < |front| then i else |front| + j
    ensures Distinct(front + rest) && IndexOf(front, key) < |front| ==> IndexOf(rest, key) == |rest|
  {
    hide IndexOf;
    var at, i, j := IndexOf(front + rest, key), IndexOf(front, key), IndexOf(rest, key);
    IndexFirst(front + rest, key);
    IndexFirst(front, key);
    IndexFirst(rest, key);
    if i < |front| {
      assert (front + rest)[i].key == key;
      assert j < |rest| ==> (front + rest)[|front| + j].key == key;
    } else {
      IndexBehind(front, rest, key);
    }
  }

  lemma EraseInFront<K>(front: seq<Clock<K>>, rest: seq<Clock<K>>, at: nat, c: Clock<K>)
    requires at < |front| && IndexOf(front, c.key) == at
    ensures |Erase(front + rest, at)| == |front| + |rest| - 1
    ensures rest != [] ==>
              |Drop(front, c.key)| == |front| - 1 &&
              Insert(Erase(front + rest, at), |front|, c) == Drop(front, c.key) + [rest[0]] + [c] + rest[1..]
  {
    hide IndexOf;
    var less := Drop(front, c.key);
    assert Erase(front + rest, at) == less + rest;
    if rest != [] {
      assert less + rest == less + [rest[0]] + rest[1..];
      InsertBetween(less + [rest[0]], rest[1..], c);
    }
  }

  // ----- the whole list

  /** How many of theirs come before the first that ours confirms. */
  function Leading<K(==)>(ours: seq<Clock<K>>, theirs: seq<Clock<K>>): (k: nat)
    ensures k <= |theirs| && (k < |theirs| ==> Confirms(ours, theirs[k]))
    ensures forall i :: 0 <= i < k ==> !Confirms(ours, theirs[i])
  {
    if theirs == [] || Confirms(ours, theirs[0]) then 0
    else
      assert forall i :: 0 < i < |theirs| ==> theirs[1..][i - 1] == theirs[i];
      1 + Leading(ours, theirs[1..])
  }

  /** The list from the insert position on, with `rest` of ours and `more` of theirs to come: theirs in their order,
      ours up to a confirmed clock as they are. */
  function Following<K(==)>(ours: seq<Clock<K>>, rest: seq<Clock<K>>, more: seq<Clock<K>>): seq<Clock<K>>
    decreases |more|
  {
    if more == [] then rest
    else
      var c, j := more[0], IndexOf(rest, more[0].key);
      if !Confirms(ours, c) then [c] + Following(ours, Drop(rest, c.key), more[1..])
      else
        var passed := if j < |rest| then j + 1 else 0;
        rest[..passed] + Following(ours, rest[passed..], more[1..])
  }

  /** The merged list: the leading clocks of theirs interlaced with ours before the first match, and what follows. */
  function Layout<K(==)>(ours: seq<Clock<K>>, theirs: seq<Clock<K>>): seq<Clock<K>> {
    var k := Leading(ours, theirs);
    var u := theirs[..k];
    var rest := Without(ours, u);
    if k == |theirs| then Interleaved(rest, u)
    else
      var p := IndexOf(rest, theirs[k].key);
      if p == |rest| then []
      else Interleaved(rest[..p], u) + [rest[p]] + Following(ours, rest[p + 1..], theirs[k + 1..])
  }

  /** In an orderly merge, our clock that is replaced is behind the insert position. */
  lemma ReplacedIsBehind<K(!new)>(ours: seq<Clock<K>>, theirs: seq<Clock<K>>, n: nat)
    requires Distinct(ours) && Distinct(theirs) && Orderly(ours, theirs)
    requires n < |theirs| && Replaces(ours, theirs[n])
    ensures Remaining(ours, theirs[..n]).Some?
    ensures IndexOf(Remaining(ours, theirs[..n]).value, theirs[n].key) < |Remaining(ours, theirs[..n]).value|
  {
    hide IndexOf, Remaining, Before;
    var before, i := theirs[..n], IndexOf(ours, theirs[n].key);
    IndexFirst(ours, theirs[n].key);
    OrderlyRest(ours, before);
    forall t | 0 <= t < n
      ensures Spares(ours, before[t], i)
    {
      if Replaces(ours, theirs[t]) {
        OtherIndex(ours, theirs, t, n);
      }
    }
    var rest := Remaining(ours, before).value;
    assert ours[i] in rest;
    IndexFirst(rest, theirs[n].key);
  }

  /** After the first match and `n` of theirs, what is in front is settled. */
  lemma {:induction false} FollowsOn<K(!new)>(ours: seq<Clock<K>>, theirs: seq<Clock<K>>, n: nat) returns (p: Placed<K>)
    requires Distinct(ours) && Distinct(theirs) && Orderly(ours, theirs) && Leading(ours, theirs) < n <= |theirs|
    ensures MergeAll(ours, theirs[..n]) == Some(Joined(p))
    ensures p.front + Following(ours, p.rest, theirs[n..]) == Layout(ours, theirs)
  {
    hide IndexOf, Before, MergeAll, MergeOne, Following, Layout, Leading, Joined, Orderly;
    if n == Leading(ours, theirs) + 1 {
      p := MatchedFirst(ours, theirs);
    } else {
      var before := FollowsOn(ours, theirs, n - 1);
      p := FollowsOne(ours, theirs, n - 1, before);
    }
  }

  lemma MatchedFirst<K(!new)>(ours: seq<Clock<K>>, theirs: seq<Clock<K>>) returns (p: Placed<K>)
    requires Distinct(ours) && Distinct(theirs) && Leading(ours, theirs) < |theirs|
    ensures
      var k := Leading(ours, theirs);
      && MergeAll(ours, theirs[..k + 1]) == Some(Joined(p))
      && p.front + Following(ours, p.rest, theirs[k + 1..]) == Layout(ours, theirs)
  {
    hide IndexOf, Before, MergeAll, MergeOne, Following, Interleaved, Without, Layout, Leading, Confirms;
    var k := Leading(ours, theirs);
    var u, c := theirs[..k], theirs[k];
    assert theirs[..k + 1] == u + [c];
    FirstConfirmed(ours, u, c);
    var rest := Without(ours, u);
    var i := IndexOf(rest, c.key);
    var laced := Interleaved(rest[..i], u);
    p := Placed(laced + [rest[i]], rest[i + 1..]);
    assert laced + [rest[i]] + rest[i + 1..] == laced + rest[i..];
    LayoutMatched(ours, theirs);
  }

  lemma LayoutMatched<K>(ours: seq<Clock<K>>, theirs: seq<Clock<K>>)
    requires Leading(ours, theirs) < |theirs|
    ensures
      var k := Leading(ours, theirs);
      var rest := Without(ours, theirs[..k]);
      var p := IndexOf(rest, theirs[k].key);
      p < |rest| ==>
        Layout(ours, theirs) ==
          Interleaved(rest[..p], theirs[..k]) + [rest[p]] + Following(ours, rest[p + 1..], theirs[k + 1..])
  {
    hide IndexOf, Interleaved, Following, Without, Leading;
  }

  /** One of theirs more. */
  lemma FollowsOne<K(!new)>(ours: seq<Clock<K>>, theirs: seq<Clock<K>>, n: nat, p: Placed<K>) returns (next: Placed<K>)
    requires Distinct(ours) && Distinct(theirs) && Orderly(ours, theirs) && n < |theirs|
    requires MergeAll(ours, theirs[..n]) == Some(Joined(p))
    ensures MergeAll(ours, theirs[..n + 1]) == Some(Joined(next))
    ensures next.front + Following(ours, next.rest, theirs[n + 1..]) == p.front + Following(ours, p.rest, theirs[n..])
  {
    hide IndexOf, Before, MergeAll, MergeOne, Following, VectorMerge.Inv, Orderly, Remaining, Turned;
    var c := theirs[n];
    assert theirs[..n + 1] == theirs[..n] + [c];
    MergeAllKeeps(ours, theirs[..n]);
    AfterMatch(ours, theirs[..n], p, c);
    LastOf(ours, theirs[..n], c);
    if Replaces(ours, c) {
      ReplacedIsBehind(ours, theirs, n);
      DefinedIff(ours, theirs[..n]);
      assert (p.front + p.rest)[|p.front|..] == p.rest;
    }
    FollowingTurn(ours, p, c, theirs[n..]);
    next := Turned(p, c, Confirms(ours, c), Replaces(ours, c)).value;
  }

  /** What a turn puts in front is what comes first of what follows. */
  lemma FollowingTurn<K>(ours: seq<Clock<K>>, p: Placed<K>, c: Clock<K>, more: seq<Clock<K>>)
    requires more != [] && more[0] == c && (Replaces(ours, c) ==> IndexOf(p.rest, c.key) < |p.rest|)
    ensures
      var turn := Turned(p, c, Confirms(ours, c), Replaces(ours, c));
      && turn.Some?
      && turn.value.front + Following(ours, turn.value.rest, more[1..]) == p.front + Following(ours, p.rest, more)
  {
    hide IndexOf, Before, Drop, Confirms, Replaces;
    var j := IndexOf(p.rest, c.key);
    if Confirms(ours, c) {
      var n := if j < |p.rest| then j + 1 else 0;
      Regroup(p.front, p.rest[..n], Following(ours, p.rest[n..], more[1..]));
    } else {
      Regroup(p.front, [c], Following(ours, Drop(p.rest, c.key), more[1..]));
    }
  }

  lemma Regroup<T>(a: seq<T>, b: seq<T>, c: seq<T>)
    ensures a + (b + c) == a + b + c
  {
  }

  /** An orderly merge gives exactly this list, and of it the first `limit` clocks. */
  lemma LaysOut<K(!new)>(ours: seq<Clock<K>>, theirs: seq<Clock<K>>, limit: nat)
    requires Distinct(ours) && Distinct(theirs) && Orderly(ours, theirs)
    ensures MergeWhole(ours, theirs) == Some(Layout(ours, theirs))
    ensures Merge(ours, theirs, limit) == Some(Layout(ours, theirs)[..Min(|Layout(ours, theirs)|, limit)])
  {
    hide IndexOf, MergeAll, Orderly, Layout;
    assert theirs[..|theirs|] == theirs;
    if Leading(ours, theirs) == |theirs| {
      NoneConfirmed(ours, theirs);
    } else {
      var p := FollowsOn(ours, theirs, |theirs|);
      assert theirs[|theirs|..] == [];
    }
    var w := Layout(ours, theirs);
    assert w[..|w|] == w;
  }

  lemma NoneConfirmed<K(!new)>(ours: seq<Clock<K>>, theirs: seq<Clock<K>>)
    requires Distinct(ours) && Distinct(theirs) && Leading(ours, theirs) == |theirs|
    ensures MergeWhole(ours, theirs) == Some(Layout(ours, theirs))
  {
    hide IndexOf, MergeAll, Interleaved, Without;
    assert theirs[..|theirs|] == theirs;
    Gathers(ours, theirs);
    ReorientAll(theirs, Without(ours, theirs));
  }
}
