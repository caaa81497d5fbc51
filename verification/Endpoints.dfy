/** Where `enumerate` starts and stops for any two endpoints, and exactly when what lies between is the range
    asked for. */
module Endpoints {
  import opened Bits
  import opened CriticalBit
  import opened CritTree
  import opened PrefixQuery
  import opened KeyOrder
  import opened Options

  // ----- the place a missing key would have

  /** The walk goes past every branch whose critical bit is not after `nb`. */
  predicate Passes<V>(t: Tree<V>, nb: nat) {
    t.Branch? && t.bit <= nb
  }

  /** The node it stops at: a key that first differs from its best match at `nb` would be inserted above it. */
  function Gap<V>(t: Tree<V>, key: Key, nb: nat): Tree<V> {
    if Passes(t, nb) then Gap(t.Child(Bit(key, t.bit)), key, nb) else t
  }

  /** The last branch passed. */
  function LastPassed<V>(t: Tree<V>, last: Tree<V>, key: Key, nb: nat): Tree<V> {
    if Passes(t, nb) then LastPassed(t.Child(Bit(key, t.bit)), t, key, nb) else last
  }

  /** The keys left of that node, and right of it. */
  ghost function LeftOf<V>(t: Tree<V>, key: Key, nb: nat): seq<Key> {
    if !Passes(t, nb) then []
    else if Bit(key, t.bit) then Order(t.left) + LeftOf(t.right, key, nb)
    else LeftOf(t.left, key, nb)
  }

  ghost function RightOf<V>(t: Tree<V>, key: Key, nb: nat): seq<Key> {
    if !Passes(t, nb) then []
    else if Bit(key, t.bit) then RightOf(t.right, key, nb)
    else RightOf(t.left, key, nb) + Order(t.right)
  }

  lemma {:induction false} GapSplits<V>(t: Tree<V>, key: Key, nb: nat)
    ensures Order(t) == LeftOf(t, key, nb) + Order(Gap(t, key, nb)) + RightOf(t, key, nb)
  {
    if Passes(t, nb) {
      var c := t.Child(Bit(key, t.bit));
      var l, g, r := LeftOf(c, key, nb), Order(Gap(c, key, nb)), RightOf(c, key, nb);
      GapSplits(c, key, nb);
      Joined(Order(t.left), l, g, r);
      Joined(l, g, r, Order(t.right));
    }
  }

  lemma Joined<T>(a: seq<T>, b: seq<T>, c: seq<T>, d: seq<T>)
    ensures a + (b + c + d) == a + b + c + d && a + b + c + d == a + b + (c + d)
  {
  }

  /** A branch passed parts the key from all leaves of its other side. */
  lemma PassedParts<V>(t: Tree<V>, key: Key, nb: nat)
    requires Wf(t) && NewAt(t, key, nb) && Passes(t, nb)
    ensures NewAt(t.Child(Bit(key, t.bit)), key, nb)
    ensures forall k :: k in Keys(t.Child(!Bit(key, t.bit))) ==>
              if Bit(key, t.bit) then LexLess(k, key) else LexLess(key, k)
  {
    var d := Bit(key, t.bit);
    var p := Best(t, key).key;
    BestIsLeaf(t.Child(d), key);
    assert t.bit < nb && Bit(p, t.bit) == d;
    forall k | k in Keys(t.Child(!d))
      ensures if d then LexLess(k, key) else LexLess(key, k)
    {
      assert AgreeBelow(k, p, t.bit);
      assert IsFirstDiff(k, key, t.bit);
      LexByBit(k, key, t.bit);
    }
  }

  /** The keys left of the node are less, those right of it greater, and those below it all on one side. */
  lemma {:induction false} GapSides<V>(t: Tree<V>, key: Key, nb: nat)
    requires Wf(t) && NewAt(t, key, nb)
    ensures forall k :: k in LeftOf(t, key, nb) ==> LexLess(k, key)
    ensures forall k :: k in RightOf(t, key, nb) ==> LexLess(key, k)
    ensures forall k :: k in Order(Gap(t, key, nb)) ==> if Bit(key, nb) then LexLess(k, key) else LexLess(key, k)
  {
    if Passes(t, nb) {
      var d := Bit(key, t.bit);
      PassedParts(t, key, nb);
      GapSides(t.Child(d), key, nb);
      OrderAscends(t.Child(!d));
    } else {
      OrderAscends(t);
      forall k | k in Keys(t)
        ensures if Bit(key, nb) then LexLess(k, key) else LexLess(key, k)
      {
        StopAgrees(t, key, nb, k);
        LexByBit(k, key, nb);
      }
    }
  }

  /** The last branch passed is right above the node, and its other side right beside it. */
  lemma {:induction false} GapNeighbour<V>(t: Tree<V>, last: Tree<V>, key: Key, nb: nat)
    requires Passes(t, nb)
    ensures
      var p := LastPassed(t, last, key, nb);
      && p.Branch? && Gap(t, key, nb) == p.Child(Bit(key, p.bit))
      && First(p.right).Leaf? && Last(p.left).Leaf?
      && (if Bit(key, p.bit) then
            var l := LeftOf(t, key, nb); l != [] && l[|l| - 1] == Last(p.left).key
          else
            var r := RightOf(t, key, nb); r != [] && r[0] == First(p.right).key)
  {
    hide Order, First, Last, Bit;
    var c := t.Child(Bit(key, t.bit));
    Ends(t.left);
    Ends(t.right);
    if Passes(c, nb) {
      GapNeighbour(c, t, key, nb);
    }
  }

  // ----- places in the order

  /** `i` keys are less than `key`, and `j` are not greater. */
  ghost predicate StartsAt(keys: seq<Key>, i: nat, key: Key) {
    i <= |keys| && forall n :: 0 <= n < |keys| ==> (n < i <==> LexLess(keys[n], key))
  }

  ghost predicate StopsBefore(keys: seq<Key>, j: nat, key: Key) {
    j <= |keys| && forall n :: 0 <= n < |keys| ==> (n < j <==> !LexLess(key, keys[n]))
  }

  lemma OneStart(keys: seq<Key>, i: nat, j: nat, key: Key)
    requires StartsAt(keys, i, key) && StartsAt(keys, j, key)
    ensures i == j
  {
    var m := if i < j then i else j;
    assert m < |keys| ==> (m < i <==> LexLess(keys[m], key));
  }

  lemma OneStop(keys: seq<Key>, i: nat, j: nat, key: Key)
    requires StopsBefore(keys, i, key) && StopsBefore(keys, j, key)
    ensures i == j
  {
    var m := if i < j then i else j;
    assert m < |keys| ==> (m < i <==> !LexLess(key, keys[m]));
  }

  ghost function IndexIn(keys: seq<Key>, k: Key): (i: nat)
    requires k in keys
    ensures i < |keys| && keys[i] == k
  {
    var i :| 0 <= i < |keys| && keys[i] == k;
    i
  }

  lemma IndexIs(keys: seq<Key>, i: nat)
    requires Ascending(keys) && i < |keys|
    ensures keys[i] in keys && IndexIn(keys, keys[i]) == i
  {
    var n := IndexIn(keys, keys[i]);
    if n < i {
      NeverBoth(keys[n], keys[i]);
    } else if i < n {
      NeverBoth(keys[i], keys[n]);
    }
  }

  /** The place of a stored key. */
  lemma PlaceOfStored(keys: seq<Key>, i: nat)
    requires Ascending(keys) && i < |keys|
    ensures StartsAt(keys, i, keys[i]) && StopsBefore(keys, i + 1, keys[i])
  {
    forall n | 0 <= n < |keys|
      ensures (n < i <==> LexLess(keys[n], keys[i])) && (n <= i <==> !LexLess(keys[i], keys[n]))
    {
      if n < i {
        NeverBoth(keys[n], keys[i]);
      } else if i < n {
        NeverBoth(keys[i], keys[n]);
      } else {
        NotLessItself(keys[i]);
      }
    }
  }

  /** The place of a missing key, by the node it would be inserted above. */
  lemma PlaceOfMissing<V>(t: Tree<V>, key: Key, nb: nat) returns (a: nat, b: nat)
    requires Wf(t) && NewAt(t, key, nb)
    ensures a < b <= |Order(t)| && b - a == |Order(Gap(t, key, nb))|
    ensures StartsAt(Order(t), if Bit(key, nb) then b else a, key)
    ensures StopsBefore(Order(t), if Bit(key, nb) then b else a, key)
    ensures First(Gap(t, key, nb)).Leaf? && First(Gap(t, key, nb)).key == Order(t)[a]
    ensures Last(Gap(t, key, nb)).Leaf? && Last(Gap(t, key, nb)).key == Order(t)[b - 1]
    ensures !Passes(t, nb) ==> a == 0 && b == |Order(t)|
    ensures Passes(t, nb) ==>
              var p := LastPassed(t, t, key, nb);
              && p.Branch? && Gap(t, key, nb) == p.Child(Bit(key, p.bit))
              && First(p.right).Leaf? && Last(p.left).Leaf?
              && if Bit(key, p.bit) then a > 0 && Last(p.left).key == Order(t)[a - 1]
                 else b < |Order(t)| && First(p.right).key == Order(t)[b]
  {
    hide LexLess, LeftOf, RightOf, Order, Wf, NewAt;
    a, b := |LeftOf(t, key, nb)|, |LeftOf(t, key, nb)| + |Order(Gap(t, key, nb))|;
    GapSplits(t, key, nb);
    Ends(Gap(t, key, nb));
    if Passes(t, nb) {
      GapNeighbour(t, t, key, nb);
    } else {
      NothingBeside(t, key, nb);
    }
    PlaceSplits(t, key, nb);
  }

  lemma NothingBeside<V>(t: Tree<V>, key: Key, nb: nat)
    requires !Passes(t, nb)
    ensures LeftOf(t, key, nb) == [] && RightOf(t, key, nb) == []
    ensures Gap(t, key, nb) == t == LastPassed(t, t, key, nb)
  {
  }

  lemma PlaceSplits<V>(t: Tree<V>, key: Key, nb: nat)
    requires Wf(t) && NewAt(t, key, nb)
    ensures
      var a := |LeftOf(t, key, nb)|;
      var i := if Bit(key, nb) then a + |Order(Gap(t, key, nb))| else a;
      StartsAt(Order(t), i, key) && StopsBefore(Order(t), i, key)
  {
    hide LexLess, LeftOf, RightOf, Order, Gap, Wf, NewAt, StartsAt, StopsBefore;
    GapSplits(t, key, nb);
    GapSides(t, key, nb);
    PartsSplit(LeftOf(t, key, nb), Order(Gap(t, key, nb)), RightOf(t, key, nb), key, Bit(key, nb));
  }

  lemma PartsSplit(l: seq<Key>, g: seq<Key>, r: seq<Key>, key: Key, less: bool)
    requires forall k :: k in l ==> LexLess(k, key)
    requires forall k :: k in r ==> LexLess(key, k)
    requires forall k :: k in g ==> if less then LexLess(k, key) else LexLess(key, k)
    ensures
      var i := if less then |l| + |g| else |l|;
      StartsAt(l + g + r, i, key) && StopsBefore(l + g + r, i, key)
  {
    hide LexLess;
    var keys, i := l + g + r, if less then |l| + |g| else |l|;
    forall n | 0 <= n < |keys|
      ensures (n < i <==> LexLess(keys[n], key)) && (n < i <==> !LexLess(key, keys[n]))
    {
      SideOf(l, g, r, n);
      if LexLess(keys[n], key) {
        NeverBoth(keys[n], key);
      }
    }
  }

  lemma SideOf<T>(l: seq<T>, g: seq<T>, r: seq<T>, n: nat)
    requires n < |l| + |g| + |r|
    ensures (l + g + r)[n] in if n < |l| then l else if n < |l| + |g| then g else r
  {
    assert n < |l| ==> (l + g + r)[n] == l[n];
    assert |l| <= n < |l| + |g| ==> (l + g + r)[n] == g[n - |l|];
    assert |l| + |g| <= n ==> (l + g + r)[n] == r[n - |l| - |g|];
  }

  // ----- the start

  /** A tree of keys of one kind. */
  ghost predicate Sound<V>(kind: Kind, t: Tree<V>) {
    Wf(t) && forall k :: k in Keys(t) ==> OfKind(kind, k)
  }

  /** The key's best match. */
  ghost function BestKey<V>(kind: Kind, t: Tree<V>, key: Key): (k: Key)
    requires Sound(kind, t)
    ensures k in Order(t) && OfKind(kind, k) && Best(t, key).Leaf? && k == Best(t, key).key
  {
    BestIsLeaf(t, key);
    OrderAscends(t);
    Best(t, key).key
  }

  /** Where `enumerate` starts: the best match, unless that is before `first`; then the leaf right of the last
      branch passed, if any. */
  ghost function StartOf<V>(kind: Kind, t: Tree<V>, first: Key): Option<Key>
    requires Sound(kind, t) && OfKind(kind, first)
  {
    var b := BestKey(kind, t, first);
    if b == first || Bit(b, FirstDiff(kind, b, first)) then Some(b)
    else
      var p := LastPassed(t, t, first, FirstDiff(kind, b, first));
      if p.Leaf? then None else FirstIsLeaf(p.right); Some(First(p.right).key)
  }

  lemma {:induction false} PassedWithin<V>(t: Tree<V>, last: Tree<V>, key: Key, nb: nat)
    ensures Keys(LastPassed(t, last, key, nb)) <= Keys(t) + Keys(last)
  {
    if Passes(t, nb) {
      PassedWithin(t.Child(Bit(key, t.bit)), t, key, nb);
    }
  }

  lemma StartStored<V>(kind: Kind, t: Tree<V>, first: Key)
    requires Sound(kind, t) && OfKind(kind, first)
    ensures StartOf(kind, t, first).Some? ==> StartOf(kind, t, first).value in Order(t)
  {
    hide Order, Wf, LastPassed;
    var b := BestKey(kind, t, first);
    if b != first {
      var p := LastPassed(t, t, first, FirstDiff(kind, b, first));
      PassedWithin(t, t, first, FirstDiff(kind, b, first));
      OrderAscends(t);
      if p.Branch? {
        FirstIsLeaf(p.right);
      }
    }
  }

  ghost function StartIndex<V>(kind: Kind, t: Tree<V>, first: Key): (i: nat)
    requires Sound(kind, t) && OfKind(kind, first)
    ensures i <= |Order(t)|
  {
    var o := StartOf(kind, t, first);
    StartStored(kind, t, first);
    if o.None? then |Order(t)| else IndexIn(Order(t), o.value)
  }

  /** The last branch passed sends the key to side `d`. */
  predicate LastTurn<V>(t: Tree<V>, key: Key, nb: nat, d: bool) {
    var p := LastPassed(t, t, key, nb);
    p.Branch? && Bit(key, p.bit) == d
  }

  /** When the best match is `first`; or it is greater and the leftmost leaf of the node `first` would be
      inserted above; or it is less, and the last turn before that node was to the left. */
  ghost predicate StartFits<V>(kind: Kind, t: Tree<V>, first: Key)
    requires Sound(kind, t) && OfKind(kind, first)
  {
    var b := BestKey(kind, t, first);
    b == first ||
    (var nb := FirstDiff(kind, b, first);
     if Bit(b, nb) then FirstIsLeaf(Gap(t, first, nb)); b == First(Gap(t, first, nb)).key
     else if Passes(t, nb) then LastTurn(t, first, nb, false)
     else t.Leaf?)
  }

  /** Exactly then, `enumerate` starts at the first key that is not less than `first`. */
  lemma StartIff<V>(kind: Kind, t: Tree<V>, first: Key)
    requires Sound(kind, t) && OfKind(kind, first)
    ensures StartsAt(Order(t), StartIndex(kind, t, first), first) <==> StartFits(kind, t, first)
  {
    hide Order, Wf, LastPassed, Gap, StartsAt, StopsBefore, Bit, Best, First, Last;
    var keys, i, b := Order(t), StartIndex(kind, t, first), BestKey(kind, t, first);
    OrderAscends(t);
    if b == first {
      PlaceOfStored(keys, i);
    } else {
      var nb := FirstDiff(kind, b, first);
      StartMissing(kind, t, first, nb);
    }
  }

  lemma StartMissing<V>(kind: Kind, t: Tree<V>, first: Key, nb: nat)
    requires Sound(kind, t) && OfKind(kind, first)
    requires BestKey(kind, t, first) != first && nb == FirstDiff(kind, BestKey(kind, t, first), first)
    ensures StartsAt(Order(t), StartIndex(kind, t, first), first) <==> StartFits(kind, t, first)
  {
    hide Order, Wf, LastPassed, Gap, StartsAt, StopsBefore, Bit, Best, First, Last;
    var keys, i, b := Order(t), StartIndex(kind, t, first), BestKey(kind, t, first);
    OrderAscends(t);
    var lo, hi := PlaceOfMissing(t, first, nb);
    var at := if Bit(first, nb) then hi else lo;
    if StartsAt(keys, i, first) {
      OneStart(keys, i, at, first);
    }
    IndexIs(keys, lo);
    if hi < |keys| {
      IndexIs(keys, hi);
    }
    if !Passes(t, nb) {
      NothingBeside(t, first, nb);
      if t.Branch? {
        RootSides(t);
      }
    }
  }

  /** The leaves next to a branch's middle. */
  lemma RootSides<V>(t: Tree<V>)
    requires Wf(t) && t.Branch?
    ensures
      var keys, n := Order(t), |Order(t.left)|;
      && 0 < n < |keys|
      && First(t.right).Leaf? && First(t.right).key == keys[n] && IndexIn(keys, keys[n]) == n
      && Last(t.left).Leaf? && Last(t.left).key == keys[n - 1] && IndexIn(keys, keys[n - 1]) == n - 1
  {
    Ends(t.left);
    Ends(t.right);
    OrderAscends(t);
    IndexIs(Order(t), |Order(t.left)|);
    IndexIs(Order(t), |Order(t.left)| - 1);
  }

  // ----- the stop

  /** Where it stops: the best match, unless that is after `last`; then the leaf left of the last branch's
      middle, if there is a branch. */
  ghost function StopOf<V>(kind: Kind, t: Tree<V>, last: Key): Key
    requires Sound(kind, t) && OfKind(kind, last)
  {
    var b := BestKey(kind, t, last);
    if b == last || !Bit(b, FirstDiff(kind, b, last)) then b
    else
      var p := LastPassed(t, t, last, FirstDiff(kind, b, last));
      if p.Leaf? then b else LastIsLeaf(p.left); Last(p.left).key
  }

  lemma StopStored<V>(kind: Kind, t: Tree<V>, last: Key)
    requires Sound(kind, t) && OfKind(kind, last)
    ensures StopOf(kind, t, last) in Order(t) && OfKind(kind, StopOf(kind, t, last))
  {
    hide Order, Wf, LastPassed;
    var b := BestKey(kind, t, last);
    OrderAscends(t);
    if b != last {
      var p := LastPassed(t, t, last, FirstDiff(kind, b, last));
      PassedWithin(t, t, last, FirstDiff(kind, b, last));
      if p.Branch? {
        LastIsLeaf(p.left);
      }
    }
  }

  ghost function StopIndex<V>(kind: Kind, t: Tree<V>, last: Key): (i: nat)
    requires Sound(kind, t) && OfKind(kind, last)
    ensures i < |Order(t)|
  {
    StopStored(kind, t, last);
    IndexIn(Order(t), StopOf(kind, t, last))
  }

  /** The stop itself is left out if it seems to come after `last`. */
  ghost function StopEnd<V>(kind: Kind, t: Tree<V>, last: Key): (j: nat)
    requires Sound(kind, t) && OfKind(kind, last)
    ensures j <= |Order(t)|
  {
    StopIndex(kind, t, last) + if ComesAfter(StopOf(kind, t, last), last) then 0 else 1
  }

  /** A leaf whose key seems to come after `last`. */
  ghost predicate LoneAfter<V>(t: Tree<V>, last: Key) {
    t.Leaf? && ComesAfter(t.key, last)
  }

  /** When the best match is `last`; or it is less and the rightmost leaf of the node `last` would be inserted
      above; or it is greater, and the last turn before that node was to the right, or there is a single leaf
      where the walk thinks the end is, seen to be too far. */
  ghost predicate StopFits<V>(kind: Kind, t: Tree<V>, last: Key)
    requires Sound(kind, t) && OfKind(kind, last)
  {
    var b := BestKey(kind, t, last);
    b == last ||
    (var nb := FirstDiff(kind, b, last);
     if !Bit(b, nb) then LastIsLeaf(Gap(t, last, nb)); b == Last(Gap(t, last, nb)).key
     else if Passes(t, nb) then LastTurn(t, last, nb, true) || LoneAfter(Gap(t, last, nb), last)
     else LoneAfter(if t.Leaf? then t else t.left, last))
  }

  /** Exactly then, `enumerate` stops behind the last key that is not greater than `last`. */
  lemma StopIff<V>(kind: Kind, t: Tree<V>, last: Key)
    requires Sound(kind, t) && OfKind(kind, last)
    ensures StopsBefore(Order(t), StopEnd(kind, t, last), last) <==> StopFits(kind, t, last)
  {
    hide Order, Wf, LastPassed, Gap, StartsAt, StopsBefore, Bit, Best, First, Last, ComesAfter, LexLess;
    var b := BestKey(kind, t, last);
    OrderAscends(t);
    StopStored(kind, t, last);
    AfterMeans(kind, StopOf(kind, t, last), last);
    if b == last {
      PlaceOfStored(Order(t), StopIndex(kind, t, last));
      NotLessItself(last);
    } else {
      StopMissing(kind, t, last, FirstDiff(kind, b, last));
    }
  }

  lemma StopMissing<V>(kind: Kind, t: Tree<V>, last: Key, nb: nat)
    requires Sound(kind, t) && OfKind(kind, last)
    requires BestKey(kind, t, last) != last && nb == FirstDiff(kind, BestKey(kind, t, last), last)
    ensures StopsBefore(Order(t), StopEnd(kind, t, last), last) <==> StopFits(kind, t, last)
  {
    hide Order, Wf, LastPassed, Gap, StartsAt, StopsBefore, Bit, Best, First, Last, ComesAfter, LexLess;
    var keys, j, b := Order(t), StopEnd(kind, t, last), BestKey(kind, t, last);
    OrderAscends(t);
    LexByBit(b, last, nb);
    StopStored(kind, t, last);
    AfterMeans(kind, StopOf(kind, t, last), last);
    var lo, hi := PlaceOfMissing(t, last, nb);
    var at := if Bit(last, nb) then hi else lo;
    if StopsBefore(keys, j, last) {
      OneStop(keys, j, at, last);
    }
    IndexIs(keys, hi - 1);
    if lo > 0 {
      IndexIs(keys, lo - 1);
    }
    OneKey(Gap(t, last, nb));
    NotAfterBefore(keys, at, last);
    if !Passes(t, nb) {
      NothingBeside(t, last, nb);
      if t.Branch? {
        RootSides(t);
        OneKey(t.left);
      }
    }
  }

  lemma OneKey<V>(t: Tree<V>)
    ensures |Order(t)| == 1 <==> t.Leaf?
    ensures t.Leaf? ==> Last(t) == t && Order(t) == [t.key]
  {
    if t.Branch? {
      Ends(t.left);
      Ends(t.right);
    }
  }

  /** What is not greater does not seem to come after. */
  lemma NotAfterBefore(keys: seq<Key>, at: nat, last: Key)
    requires StopsBefore(keys, at, last)
    ensures forall n :: 0 <= n < at ==> !LexLess(last, keys[n])
  {
  }

  // ----- what lies between

  ghost predicate InRange(k: Key, first: Key, last: Key) {
    !LexLess(k, first) && !LexLess(last, k)
  }

  /** Exactly the keys in the range. */
  ghost predicate Exact(run: seq<Key>, keys: seq<Key>, first: Key, last: Key) {
    forall k :: k in run <==> k in keys && InRange(k, first, last)
  }

  /** Every key has its place in the order. */
  lemma Places<V>(kind: Kind, t: Tree<V>, key: Key) returns (a: nat, b: nat)
    requires Sound(kind, t) && OfKind(kind, key)
    ensures StartsAt(Order(t), a, key) && StopsBefore(Order(t), b, key)
  {
    hide StartsAt, StopsBefore, Order, Wf;
    var best := BestKey(kind, t, key);
    OrderAscends(t);
    if best == key {
      a := IndexIn(Order(t), key);
      b := a + 1;
      PlaceOfStored(Order(t), a);
    } else {
      var nb := FirstDiff(kind, best, key);
      a, b := PlaceOfMissing(t, key, nb);
      a := if Bit(key, nb) then b else a;
      b := a;
    }
  }

  lemma InRangeIs(keys: seq<Key>, a: nat, b: nat, first: Key, last: Key, n: nat)
    requires StartsAt(keys, a, first) && StopsBefore(keys, b, last) && n < |keys|
    ensures InRange(keys[n], first, last) <==> a <= n < b
  {
  }

  lemma InRun(keys: seq<Key>, i: nat, e: nat, n: nat)
    requires Ascending(keys) && i <= e <= |keys| && n < |keys|
    ensures keys[n] in keys[i..e] <==> i <= n < e
  {
    hide LexLess;
    if i <= n < e {
      assert keys[i..e][n - i] == keys[n];
    } else if keys[n] in keys[i..e] {
      var m :| 0 <= m < e - i && keys[i..e][m] == keys[n];
      IndexIs(keys, n);
      IndexIs(keys, i + m);
    }
  }

  lemma ExactIs(keys: seq<Key>, i: nat, e: nat, a: nat, b: nat, first: Key, last: Key)
    requires Ascending(keys) && i <= e <= |keys| && StartsAt(keys, a, first) && StopsBefore(keys, b, last)
    ensures Exact(keys[i..e], keys, first, last) <==> if a < b then i == a && e == b else i == e
  {
    hide StartsAt, StopsBefore, InRange, Ascending, Exact;
    Sizes(keys, a, b, first, last);
    if Exact(keys[i..e], keys, first, last) {
      if i < e {
        ExactAt(keys, i, e, a, b, first, last, i);
        ExactAt(keys, i, e, a, b, first, last, e - 1);
      }
      if a < b {
        ExactAt(keys, i, e, a, b, first, last, a);
        ExactAt(keys, i, e, a, b, first, last, b - 1);
      }
    } else {
      NotExactAt(keys, i, e, a, b, first, last);
    }
  }

  lemma ExactAt(keys: seq<Key>, i: nat, e: nat, a: nat, b: nat, first: Key, last: Key, n: nat)
    requires Ascending(keys) && i <= e <= |keys| && StartsAt(keys, a, first) && StopsBefore(keys, b, last)
    requires Exact(keys[i..e], keys, first, last) && n < |keys|
    ensures i <= n < e <==> a <= n < b
  {
    InRun(keys, i, e, n);
    InRangeIs(keys, a, b, first, last, n);
  }

  lemma NotExactAt(keys: seq<Key>, i: nat, e: nat, a: nat, b: nat, first: Key, last: Key)
    requires Ascending(keys) && i <= e <= |keys| && StartsAt(keys, a, first) && StopsBefore(keys, b, last)
    requires !Exact(keys[i..e], keys, first, last)
    ensures !(if a < b then i == a && e == b else i == e)
  {
    hide StartsAt, StopsBefore, InRange, Ascending;
    var k :| !(k in keys[i..e] <==> k in keys && InRange(k, first, last));
    RunInKeys(keys, i, e);
    var n := IndexIn(keys, k);
    InRun(keys, i, e, n);
    InRangeIs(keys, a, b, first, last, n);
  }

  lemma Sizes(keys: seq<Key>, a: nat, b: nat, first: Key, last: Key)
    requires StartsAt(keys, a, first) && StopsBefore(keys, b, last)
    ensures a <= |keys| && b <= |keys|
  {
  }

  lemma RunInKeys(keys: seq<Key>, i: nat, e: nat)
    requires i <= e <= |keys|
    ensures forall k :: k in keys[i..e] ==> k in keys
  {
  }

  /** What `enumerate` goes through: from the start up to the stop, or to the very end if the start is behind
      the stop. */
  ghost function RunOf<V>(kind: Kind, t: Tree<V>, first: Key, last: Key): seq<Key>
    requires Sound(kind, t) && OfKind(kind, first) && OfKind(kind, last)
  {
    var i := StartIndex(kind, t, first);
    if i <= StopIndex(kind, t, last) then Order(t)[i..StopEnd(kind, t, last)] else Order(t)[i..]
  }

  /** The condition for it to be the range. If there are keys in the range: the start is right, and the stop is,
      or lies before the start while no key comes after the range. If there are none: there is nowhere to start,
      or the start is the stop and is left out. */
  ghost predicate RunFits<V>(kind: Kind, t: Tree<V>, first: Key, last: Key)
    requires Sound(kind, t) && OfKind(kind, first) && OfKind(kind, last)
  {
    if SomeBetween(Order(t), first, last) then
      && StartFits(kind, t, first)
      && if StartIndex(kind, t, first) <= StopIndex(kind, t, last) then StopFits(kind, t, last) else NoneAfter(t, last)
    else
      || StartOf(kind, t, first).None?
      || (StartOf(kind, t, first) == Some(StopOf(kind, t, last)) && ComesAfter(StopOf(kind, t, last), last))
  }

  ghost predicate SomeBetween(keys: seq<Key>, first: Key, last: Key) {
    exists k :: k in keys && InRange(k, first, last)
  }

  ghost predicate NoneAfter<V>(t: Tree<V>, last: Key) {
    LastIsLeaf(t);
    !LexLess(last, Last(t).key)
  }

  /** Exactly then, `enumerate` goes through the stored keys from `first` to `last`, and no others. */
  lemma RunIff<V>(kind: Kind, t: Tree<V>, first: Key, last: Key)
    requires Sound(kind, t) && OfKind(kind, first) && OfKind(kind, last)
    ensures Exact(RunOf(kind, t, first, last), Order(t), first, last) <==> RunFits(kind, t, first, last)
  {
    hide StartsAt, StopsBefore, Order, Sound, LexLess, ComesAfter, InRange, Exact, StartFits, StopFits, NoneAfter;
    hide StartIndex, StopIndex, StartOf, StopOf, SomeBetween, Ascending;
    var keys, i, s, j := Order(t), StartIndex(kind, t, first), StopIndex(kind, t, last), StopEnd(kind, t, last);
    var a, b := RunPlaces(kind, t, first, last);
    var e := if i <= s then j else |keys|;
    assert RunOf(kind, t, first, last) == keys[i..e];
    SoundAscends(kind, t);
    ExactIs(keys, i, e, a, b, first, last);
    SameIndex(kind, t, first, last);
  }

  lemma SoundAscends<V>(kind: Kind, t: Tree<V>)
    requires Sound(kind, t)
    ensures Ascending(Order(t))
  {
    OrderAscends(t);
  }

  /** The places of the endpoints, and what the conditions say about them. */
  lemma RunPlaces<V>(kind: Kind, t: Tree<V>, first: Key, last: Key) returns (a: nat, b: nat)
    requires Sound(kind, t) && OfKind(kind, first) && OfKind(kind, last)
    ensures StartsAt(Order(t), a, first) && StopsBefore(Order(t), b, last)
    ensures StartFits(kind, t, first) <==> StartIndex(kind, t, first) == a
    ensures StopFits(kind, t, last) <==> StopEnd(kind, t, last) == b
    ensures SomeBetween(Order(t), first, last) <==> a < b
    ensures NoneAfter(t, last) <==> b == |Order(t)|
  {
    hide StartsAt, StopsBefore, Order, LexLess, ComesAfter, InRange, StartFits, StopFits, Wf;
    hide StartIndex, StopEnd, SomeBetween;
    var keys, i, j := Order(t), StartIndex(kind, t, first), StopEnd(kind, t, last);
    var b0;
    a, b0 := Places(kind, t, first);
    var a0;
    a0, b := Places(kind, t, last);
    StartIff(kind, t, first);
    StopIff(kind, t, last);
    if StartsAt(keys, i, first) {
      OneStart(keys, i, a, first);
    }
    if StopsBefore(keys, j, last) {
      OneStop(keys, j, b, last);
    }
    SomeInRange(keys, a, b, first, last);
    Ends(t);
    EndInRange(keys, b, last);
  }

  lemma SomeInRange(keys: seq<Key>, a: nat, b: nat, first: Key, last: Key)
    requires StartsAt(keys, a, first) && StopsBefore(keys, b, last)
    ensures a < b <==> SomeBetween(keys, first, last)
  {
    if a < b {
      InRangeIs(keys, a, b, first, last, a);
      assert keys[a] in keys;
    } else {
      forall k | k in keys
        ensures !InRange(k, first, last)
      {
        InRangeIs(keys, a, b, first, last, IndexIn(keys, k));
      }
    }
  }

  lemma EndInRange(keys: seq<Key>, b: nat, last: Key)
    requires StopsBefore(keys, b, last) && keys != []
    ensures b == |keys| <==> !LexLess(last, keys[|keys| - 1])
  {
  }

  lemma SameIndex<V>(kind: Kind, t: Tree<V>, first: Key, last: Key)
    requires Sound(kind, t) && OfKind(kind, first) && OfKind(kind, last)
    ensures StartOf(kind, t, first).None? <==> StartIndex(kind, t, first) == |Order(t)|
    ensures StartOf(kind, t, first) == Some(StopOf(kind, t, last)) <==>
              StartIndex(kind, t, first) == StopIndex(kind, t, last)
  {
    hide StartOf, StopOf, Order, Wf;
    StartStored(kind, t, first);
    StopStored(kind, t, last);
  }

  /** The run, when the places of its ends are known. */
  lemma RunByPlace<V>(kind: Kind, t: Tree<V>, first: Key, last: Key, i: nat, n: nat)
    requires Sound(kind, t) && OfKind(kind, first) && OfKind(kind, last)
    requires i < |Order(t)| && StartOf(kind, t, first) == Some(Order(t)[i])
    requires n < |Order(t)| && StopOf(kind, t, last) == Order(t)[n]
    ensures
      var j := n + if ComesAfter(Order(t)[n], last) then 0 else 1;
      RunOf(kind, t, first, last) == if i <= n then Order(t)[i..j] else Order(t)[i..]
  {
    hide StartOf, StopOf, ComesAfter, Wf, Order, LexLess;
    OrderAscends(t);
    IndexIs(Order(t), i);
    IndexIs(Order(t), n);
  }

  lemma NoRun<V>(kind: Kind, t: Tree<V>, first: Key, last: Key)
    requires Sound(kind, t) && OfKind(kind, first) && OfKind(kind, last)
    requires StartOf(kind, t, first) == None
    ensures RunOf(kind, t, first, last) == []
  {
  }

  // ----- the node it looks at

  /** How many bits the endpoints share. */
  ghost function CommonBits(kind: Kind, first: Key, last: Key): nat
    requires OfKind(kind, first) && OfKind(kind, last)
  {
    if first == last then 8 * |first| else FirstDiff(kind, first, last)
  }

  /** The node above all stored keys that begin with these bits, if there are any. */
  ghost predicate RangeNode<V>(m: Option<Tree<V>>, top: Option<Tree<V>>, first: Key, len: nat) {
    if top.None? then m.Some? ==> forall k :: k in Keys(m.value) ==> !AgreeBelow(k, first, len)
    else
      && m.Some? && top.value == Nearest(m.value, first, len)
      && forall k :: k in Keys(top.value) <==> k in Keys(m.value) && AgreeBelow(k, first, len)
  }

  /** What lies between two keys begins with the bits they share. */
  lemma BetweenAgrees(kind: Kind, first: Key, last: Key, k: Key)
    requires OfKind(kind, first) && OfKind(kind, last) && OfKind(kind, k)
    requires !LexLess(last, first) && InRange(k, first, last)
    ensures AgreeBelow(k, first, CommonBits(kind, first, last))
  {
    hide LexLess, Bit;
    OneOrTheOther(kind, first, last);
    if k != first && k != last {
      var i, n := FirstDiff(kind, k, first), CommonBits(kind, first, last);
      LexByBit(k, first, i);
      if i < n {
        if first != last {
          assert IsFirstDiff(k, last, i);
        }
        LexByBit(k, last, i);
      }
    }
  }

  /** So no key in the range is anywhere else. */
  lemma NodeHoldsRange<V>(kind: Kind, m: Option<Tree<V>>, top: Option<Tree<V>>, first: Key, last: Key)
    requires m.Some? ==> Sound(kind, m.value)
    requires OfKind(kind, first) && OfKind(kind, last) && !LexLess(last, first)
    requires RangeNode(m, top, first, CommonBits(kind, first, last))
    ensures m.Some? ==> forall k :: k in Keys(m.value) && InRange(k, first, last) ==> top.Some? && k in Keys(top.value)
    ensures top.Some? ==> m.Some? && Keys(top.value) <= Keys(m.value)
  {
    if m.Some? {
      forall k | k in Keys(m.value) && InRange(k, first, last)
        ensures top.Some? && k in Keys(top.value)
      {
        BetweenAgrees(kind, first, last, k);
      }
    }
  }

  // ----- ranges for which it fits

  /** Endpoints that are stored themselves, in order. The other way round the pass goes from `first` to the end. */
  lemma StoredEndpoints<V>(kind: Kind, t: Tree<V>, first: Key, last: Key)
    requires Sound(kind, t) && first in Keys(t) && last in Keys(t)
    ensures RunFits(kind, t, first, last) <==> !LexLess(last, first)
  {
    hide Order, Wf, LexLess;
    var keys := Order(t);
    OrderAscends(t);
    BestFinds(t, first);
    BestFinds(t, last);
    NotLessItself(first);
    NotLessItself(last);
    if LexLess(last, first) {
      NothingBetween(first, last);
      AfterMeans(kind, last, last);
    } else {
      assert InRange(first, first, last);
      IndexIs(keys, StartIndex(kind, t, first));
      IndexIs(keys, StopIndex(kind, t, last));
    }
  }

  /** Between endpoints in the wrong order lies nothing. */
  lemma NothingBetween(first: Key, last: Key)
    requires LexLess(last, first)
    ensures forall k :: !InRange(k, first, last)
  {
    forall k
      ensures !InRange(k, first, last)
    {
      EitherSide(last, k, first);
    }
  }

  /** A range of all keys with one prefix: the prefix then zeros, to the prefix then ones. */
  ghost predicate PrefixRange(kind: Kind, first: Key, last: Key, len: nat) {
    && kind.Fixed? && len <= 8 * kind.size
    && AgreeBelow(first, last, len)
    && (forall i: nat :: len <= i < 8 * kind.size ==> !Bit(first, i) && Bit(last, i))
  }

  lemma {:induction false} BestIsFirst<V>(t: Tree<V>, first: Key, len: nat)
    requires Wf(t) && (t.Branch? ==> t.bit >= len)
    requires forall i: nat :: len <= i ==> !Bit(first, i)
    ensures Best(t, first) == First(t)
  {
    if t.Branch? {
      BestIsFirst(t.left, first, len);
    }
  }

  lemma {:induction false} BestIsLast<V>(t: Tree<V>, last: Key, len: nat, n: nat)
    requires Wf(t) && (t.Branch? ==> t.bit >= len)
    requires forall k :: k in Keys(t) ==> |k| <= n
    requires forall i: nat :: len <= i < 8 * n ==> Bit(last, i)
    ensures Best(t, last) == Last(t)
  {
    if t.Branch? {
      HeightBound(t, n);
      BestIsLast(t.right, last, len, n);
    }
  }

  /** A node all of whose keys have the prefix. */
  ghost predicate HasPrefix<V>(t: Tree<V>, first: Key, len: nat) {
    (t.Branch? ==> t.bit >= len) && forall k :: k in Keys(t) ==> AgreeBelow(k, first, len)
  }

  /** The bits of the endpoints of a prefix range, past its prefix. */
  lemma RangeEnds<V>(kind: Kind, first: Key, last: Key, len: nat, t: Tree<V>)
    requires PrefixRange(kind, first, last, len) && OfKind(kind, first) && OfKind(kind, last)
    requires Wf(t) && (t.Branch? ==> t.bit >= len)
    requires forall k :: k in Keys(t) ==> OfKind(kind, k)
    ensures forall i: nat :: len <= i ==> !Bit(first, i)
    ensures Best(t, first) == First(t) && Best(t, last) == Last(t)
  {
    forall i: nat | len <= i
      ensures !Bit(first, i)
    {
      if i >= 8 * kind.size {
        ZeroPastEnd(first, i);
      }
    }
    BestIsFirst(t, first, len);
    BestIsLast(t, last, len, kind.size);
  }


  /** On a prefix range it goes through the node found from its first leaf to its last. */
  lemma PrefixRun<V>(kind: Kind, t: Tree<V>, first: Key, last: Key, len: nat)
    requires Sound(kind, t) && OfKind(kind, first) && OfKind(kind, last)
    requires PrefixRange(kind, first, last, len) && HasPrefix(t, first, len)
    ensures RunOf(kind, t, first, last) == Order(t)
  {
    hide Order, Wf, LexLess, Bit, ComesAfter;
    var keys, n := Order(t), |Order(t)| - 1;
    OrderAscends(t);
    Ends(t);
    PrefixEnds(kind, t, first, last, len);
    AfterMeans(kind, Last(t).key, last);
    IndexIs(keys, 0);
    IndexIs(keys, n);
    assert keys[0..n + 1] == keys;
  }

  lemma PrefixEnds<V>(kind: Kind, t: Tree<V>, first: Key, last: Key, len: nat)
    requires Sound(kind, t) && OfKind(kind, first) && OfKind(kind, last)
    requires PrefixRange(kind, first, last, len) && HasPrefix(t, first, len)
    ensures First(t).Leaf? && Last(t).Leaf?
    ensures StartOf(kind, t, first) == Some(First(t).key)
    ensures StopOf(kind, t, last) == Last(t).key && !LexLess(last, Last(t).key)
  {
    hide Order, Wf, LexLess;
    FirstIsLeaf(t);
    LastIsLeaf(t);
    RangeEnds(kind, first, last, len, t);
    var b, c := BestKey(kind, t, first), BestKey(kind, t, last);
    if b != first {
      assert AgreeBelow(b, first, len);
      assert Bit(b, FirstDiff(kind, b, first));
    }
    if c != last {
      var i := FirstDiff(kind, c, last);
      assert AgreeBelow(c, first, len) && AgreeBelow(first, last, len);
      BitsWithinKey(c, last, i, kind.size);
      assert !Bit(c, i);
      LexByBit(c, last, i);
    } else {
      NotLessItself(last);
    }
  }

  /** What `enumerate` goes through, in the whole tree. */
  lemma WholeRange<V>(kind: Kind, m: Option<Tree<V>>, top: Option<Tree<V>>, first: Key, last: Key, run: seq<Key>)
    requires Good(kind, m) && OfKind(kind, first) && OfKind(kind, last)
    requires RangeNode(m, top, first, CommonBits(kind, first, last)) && (top.Some? ==> Sound(kind, top.value))
    requires run == if top.None? then [] else RunOf(kind, top.value, first, last)
    ensures Ascending(run)
    ensures (forall k :: k in run <==> k in KeysOf(m) && InRange(k, first, last)) <==>
            (top.None? || RunFits(kind, top.value, first, last))
    ensures first in KeysOf(m) && last in KeysOf(m) ==>
              ((forall k :: k in run <==> k in KeysOf(m) && InRange(k, first, last)) <==> !LexLess(last, first))
    ensures forall len :: PrefixRange(kind, first, last, len) ==>
              forall k :: k in run <==> k in KeysOf(m) && AgreeBelow(k, first, len)
  {
    hide LexLess, AgreeBelow, RunOf, RunFits, Order, InRange, Wf, Ascending, PrefixRange;
    if top.Some? {
      OrderAscends(top.value);
      RunIff(kind, top.value, first, last);
      RunAscends(kind, top.value, first, last);
    } else {
      NothingAscends();
    }
    if LexLess(last, first) {
      NothingBetween(first, last);
    } else {
      NodeHoldsRange(kind, m, top, first, last);
    }
    if first in KeysOf(m) && last in KeysOf(m) {
      StoredBelow(kind, m, top, first, last);
      StoredEndpoints(kind, top.value, first, last);
    }
    forall len | PrefixRange(kind, first, last, len)
      ensures forall k :: k in run <==> k in KeysOf(m) && AgreeBelow(k, first, len)
    {
      RangeBits(kind, first, last, len);
      if top.Some? {
        NearestHasPrefix(kind, m, top.value, first, last, len);
        PrefixRun(kind, top.value, first, last, len);
      }
    }
  }

  /** Stored endpoints are below the node they share a prefix with. */
  lemma StoredBelow<V>(kind: Kind, m: Option<Tree<V>>, top: Option<Tree<V>>, first: Key, last: Key)
    requires Good(kind, m) && first in KeysOf(m) && last in KeysOf(m)
    requires OfKind(kind, first) && OfKind(kind, last)
    requires RangeNode(m, top, first, CommonBits(kind, first, last))
    ensures top.Some? && first in Keys(top.value) && last in Keys(top.value)
  {
    assert AgreeBelow(first, first, CommonBits(kind, first, last));
    assert AgreeBelow(last, first, CommonBits(kind, first, last));
  }

  lemma NothingAscends()
    ensures Ascending([])
  {
  }

  lemma RunAscends<V>(kind: Kind, t: Tree<V>, first: Key, last: Key)
    requires Sound(kind, t) && OfKind(kind, first) && OfKind(kind, last)
    ensures Ascending(RunOf(kind, t, first, last))
  {
    hide LexLess, Order, Wf;
    OrderAscends(t);
  }

  lemma NearestHasPrefix<V>(kind: Kind, m: Option<Tree<V>>, t: Tree<V>, first: Key, last: Key, len: nat)
    requires Good(kind, m) && RangeNode(m, Some(t), first, len)
    ensures HasPrefix(t, first, len)
  {
    NearestHoldsPrefix(m.value, first, len);
  }

  /** The bits that the endpoints of a prefix range share are its prefix. */
  lemma RangeBits(kind: Kind, first: Key, last: Key, len: nat)
    requires OfKind(kind, first) && OfKind(kind, last) && PrefixRange(kind, first, last, len)
    ensures CommonBits(kind, first, last) == len
  {
    if len < 8 * kind.size {
      assert Bit(first, len) != Bit(last, len);
      FirstDiffUnique(first, last, len, FirstDiff(kind, first, last));
    }
  }

  // ----- ranges for which it does not

  lemma OneByte(c: bv8, i: nat)
    requires i < 8
    ensures Bit([c], i) == BitOf(c, i)
  {
  }

  /** The keys 01, 80 and 81 in hexadecimal. */
  lemma ThreeKeys()
    ensures !Bit([0x80], 7) && Bit([0x81], 7) && Bit([0x01], 7)
    ensures IsFirstDiff([0x80], [0x81], 7) && IsFirstDiff([0x81], [0x01], 0) && IsFirstDiff([0x80], [0x01], 0)
    ensures Bit([0x80], 0) && Bit([0x81], 0)
  {
    OneByte(0x80, 7); OneByte(0x81, 7); OneByte(0x01, 7);
    OneByte(0x80, 0); OneByte(0x81, 0); OneByte(0x01, 0);
    forall j: nat | j < 7
      ensures Bit([0x80], j) == Bit([0x81], j)
    {
      OneByte(0x80, j);
      OneByte(0x81, j);
      assert (0x80 as bv8) & Mask(j) == 0x81 & Mask(j);
    }
  }

  /** The walks in a tree of one branch. */
  lemma OneBranch<V>(t: Tree<V>, key: Key, nb: nat)
    requires t.Branch? && t.left.Leaf? && t.right.Leaf?
    ensures Best(t, key) == t.Child(Bit(key, t.bit))
    ensures t.bit <= nb ==> LastPassed(t, t, key, nb) == t
    ensures First(t.right) == t.right && Last(t.left) == t.left
    ensures Order(t) == [t.left.key, t.right.key]
  {
  }

  /** In a tree of 80 and 81, the best match for 01 is 81: a pass from 01 to 81 starts there and leaves out 80,
      although 80 lies between. */
  lemma StartMisses<V>(v: V)
    ensures
      var t := Branch(7, Leaf([0x80], v), Leaf([0x81], v));
      && Sound(Fixed(1), t)
      && InRange([0x80], [0x01], [0x81])
      && RunOf(Fixed(1), t, [0x01], [0x81]) == [[0x81]]
  {
    hide Bit, LexLess, ComesAfter, Best, LastPassed, Order;
    var t := Branch(7, Leaf([0x80], v), Leaf([0x81], v));
    ThreeKeys();
    OneBranch(t, [0x01], 0);
    OneBranch(t, [0x81], 0);
    LexByBit([0x80], [0x81], 7);
    LexByBit([0x80], [0x01], 0);
    assert AgreeBelow([0x80], [0x81], 7);
    FirstDiffUnique([0x81], [0x01], FirstDiff(Fixed(1), [0x81], [0x01]), 0);
    OrderAscends(t);
    IndexIs(Order(t), 1);
    AfterMeans(Fixed(1), [0x81], [0x81]);
    NotLessItself([0x81]);
    assert BestKey(Fixed(1), t, [0x01]) == [0x81] && BestKey(Fixed(1), t, [0x81]) == [0x81];
    assert StartOf(Fixed(1), t, [0x01]) == Some([0x81]) && StopOf(Fixed(1), t, [0x81]) == [0x81];
    assert Order(t)[1] == [0x81] && Order(t)[1..2] == [[0x81]];
  }

  /** The keys 10, 20, 80 and F0 in hexadecimal. */
  lemma FourKeys()
    ensures !Bit([0x10], 0) && Bit([0xF0], 0) && !Bit([0x20], 0) && Bit([0x80], 0)
    ensures IsFirstDiff([0x10], [0xF0], 0)
    ensures IsFirstDiff([0x10], [0x20], 2) && !Bit([0x10], 2)
    ensures IsFirstDiff([0xF0], [0x80], 1) && Bit([0xF0], 1)
  {
    OneByte(0x10, 0); OneByte(0xF0, 0); OneByte(0x20, 0); OneByte(0x80, 0);
    OneByte(0x10, 1); OneByte(0x20, 1); OneByte(0xF0, 1); OneByte(0x80, 1);
    OneByte(0x10, 2); OneByte(0x20, 2);
  }

  /** In a tree of 10 and F0, nothing lies between 20 and 80: the start is F0 and the stop is 10, so the pass goes
      on to the end and offers F0. */
  lemma StopIsBehind<V>(v: V)
    ensures
      var t := Branch(0, Leaf([0x10], v), Leaf([0xF0], v));
      && Sound(Fixed(1), t)
      && LexLess([0x80], [0xF0])
      && RunOf(Fixed(1), t, [0x20], [0x80]) == [[0xF0]]
  {
    hide Bit, LexLess, ComesAfter, Best, LastPassed, Order, First, Last;
    var t := Branch(0, Leaf([0x10], v), Leaf([0xF0], v));
    FourKeys();
    OneBranch(t, [0x20], 2);
    OneBranch(t, [0x80], 1);
    LexByBit([0xF0], [0x80], 1);
    FirstDiffUnique([0x10], [0x20], FirstDiff(Fixed(1), [0x10], [0x20]), 2);
    FirstDiffUnique([0xF0], [0x80], FirstDiff(Fixed(1), [0xF0], [0x80]), 1);
    OrderAscends(t);
    IndexIs(Order(t), 0);
    IndexIs(Order(t), 1);
    assert BestKey(Fixed(1), t, [0x20]) == [0x10] && BestKey(Fixed(1), t, [0x80]) == [0xF0];
    assert StartOf(Fixed(1), t, [0x20]) == Some([0xF0]) && StopOf(Fixed(1), t, [0x80]) == [0x10];
    assert Order(t)[0] == [0x10] && Order(t)[1] == [0xF0] && Order(t)[1..] == [[0xF0]];
  }
}
