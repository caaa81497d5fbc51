/** `enumerate`: the leaves between two keys, in order, until the callback says stop. */
module Enumerate {
  import opened Bits
  import opened CriticalBit
  import opened CritTree
  import opened MerkleHash
  import opened Shapes
  import opened CritBitTree
  import opened PrefixQuery
  import opened KeyOrder
  import opened Endpoints
  import opened Queries
  import opened Options

  /** The callback, which may remember the keys it was given before. */
  type Callback = (seq<Key>, Key) -> bool

  /** The reference: offer the keys in turn, up to and including the first refusal. */
  ghost function Offered(fun: Callback, keys: seq<Key>, visited: seq<Key>): seq<Key>
    decreases |keys|
  {
    if keys == [] then visited
    else if fun(visited, keys[0]) then Offered(fun, keys[1..], visited + [keys[0]])
    else visited + [keys[0]]
  }

  /** What the callback was given: the first of the keys, all of them unless it refused one, which was the last; it
      accepted those before, each time remembering what came earlier. */
  ghost predicate UpToRefusal(fun: Callback, keys: seq<Key>, visited: seq<Key>) {
    && visited <= keys
    && (forall i :: 0 <= i < |visited| - 1 ==> fun(visited[..i], visited[i]))
    && (|visited| < |keys| ==> visited != [] && !fun(visited[..|visited| - 1], visited[|visited| - 1]))
  }

  lemma {:induction false} OfferedIs(fun: Callback, all: seq<Key>, n: nat)
    requires n <= |all| && forall i :: 0 <= i < n ==> fun(all[..i], all[i])
    ensures UpToRefusal(fun, all, Offered(fun, all[n..], all[..n]))
    decreases |all| - n
  {
    if n < |all| {
      assert all[n..][0] == all[n] && all[n..][1..] == all[n + 1..] && all[..n] + [all[n]] == all[..n + 1];
      if fun(all[..n], all[n]) {
        OfferedIs(fun, all, n + 1);
      } else {
        RefusedAt(fun, all, n);
      }
    } else {
      assert all[..n] == all;
    }
  }

  lemma RefusedAt(fun: Callback, all: seq<Key>, n: nat)
    requires n < |all| && (forall i :: 0 <= i < n ==> fun(all[..i], all[i])) && !fun(all[..n], all[n])
    ensures UpToRefusal(fun, all, all[..n + 1])
  {
    var visited := all[..n + 1];
    assert forall i :: 0 <= i <= n ==> visited[..i] == all[..i];
  }

  datatype State = STOP | SEARCHING | FOUND

  /** What the recursion does with one leaf. */
  function AtLeaf<V>(fun: Callback, leaf: LeafNode<V>, start: LeafNode<V>, stop: LeafNode<V>, excludeStop: bool,
                     state: State, visited: seq<Key>): (State, seq<Key>)
  {
    if state == STOP then (STOP, visited)
    else if state == SEARCHING && leaf != start then (SEARCHING, visited)
    else if excludeStop && leaf == stop then (STOP, visited)
    else if !fun(visited, leaf.key) || leaf == stop then (STOP, visited + [leaf.key])
    else (FOUND, visited + [leaf.key])
  }

  /** ... and with a run of leaves. */
  ghost function Scan<V>(fun: Callback, leaves: seq<LeafNode<V>>, start: LeafNode<V>, stop: LeafNode<V>,
                         excludeStop: bool, state: State, visited: seq<Key>): (State, seq<Key>)
    decreases |leaves|
  {
    if leaves == [] || state == STOP then (state, visited)
    else
      var r := AtLeaf(fun, leaves[0], start, stop, excludeStop, state, visited);
      Scan(fun, leaves[1..], start, stop, excludeStop, r.0, r.1)
  }

  lemma {:induction false} ScanAppend<V>(fun: Callback, a: seq<LeafNode<V>>, b: seq<LeafNode<V>>,
      start: LeafNode<V>, stop: LeafNode<V>, excludeStop: bool, state: State, visited: seq<Key>)
    ensures var r := Scan(fun, a, start, stop, excludeStop, state, visited);
            Scan(fun, a + b, start, stop, excludeStop, state, visited) ==
            Scan(fun, b, start, stop, excludeStop, r.0, r.1)
    decreases |a|
  {
    if a == [] {
      assert a + b == b;
    } else if state != STOP {
      var r := AtLeaf(fun, a[0], start, stop, excludeStop, state, visited);
      assert (a + b)[1..] == a[1..] + b;
      ScanAppend(fun, a[1..], b, start, stop, excludeStop, r.0, r.1);
    }
  }

  lemma {:induction false} TipsNonEmpty<V>(s: Shape<V>)
    ensures Tips(s) != []
  {
    if s.Fork? {
      TipsNonEmpty(s.left);
    }
  }

  /** The recursion over the nodes is one pass over the leaves. */
  method EnumerateNode<V>(tree: CritBitTree<V>, fun: Callback, top: Ptr<V>, ghost s: Shape<V>,
      start: LeafNode<V>, stop: LeafNode<V>, excludeStop: bool, state: State, visited: seq<Key>)
    returns (state': State, visited': seq<Key>)
    requires Inside(tree, top, s)
    ensures (state', visited') == Scan(fun, Tips(s), start, stop, excludeStop, state, visited)
    decreases s
  {
    if !top.ToBranch? {
      var r := AtLeaf(fun, top.leaf, start, stop, excludeStop, state, visited);
      assert Tips(s)[1..] == [];
      return r.0, r.1;
    }
    var branch := top.branch;
    StepDown(s, LinksOf(tree.nodes), false);
    StepDown(s, LinksOf(tree.nodes), true);
    ScanAppend(fun, Tips(s.left), Tips(s.right), start, stop, excludeStop, state, visited);
    state', visited' := EnumerateNode(tree, fun, branch.child0, s.left, start, stop, excludeStop, state, visited);
    if state' != STOP {
      state', visited' := EnumerateNode(tree, fun, branch.child1, s.right, start, stop, excludeStop, state', visited');
    }
  }

  /** The first `e` leaves are gone through: the stop is the last of them, or the one behind them if it is
      excluded, or nowhere. */
  ghost predicate GoesTo<V>(leaves: seq<LeafNode<V>>, stop: LeafNode<V>, excludeStop: bool, e: nat) {
    && e <= |leaves|
    && (forall i :: 0 <= i < e ==> leaves[i] == stop ==> !excludeStop && i == e - 1)
    && (e < |leaves| ==> if excludeStop then leaves[e] == stop else e > 0 && leaves[e - 1] == stop)
  }

  /** From the start on, the pass offers these leaves' keys. */
  lemma {:induction false} ScanFrom<V>(fun: Callback, leaves: seq<LeafNode<V>>, start: LeafNode<V>,
      stop: LeafNode<V>, excludeStop: bool, e: nat, state: State, visited: seq<Key>)
    requires GoesTo(leaves, stop, excludeStop, e)
    requires state == FOUND || (state == SEARCHING && leaves != [] && leaves[0] == start)
    ensures Scan(fun, leaves, start, stop, excludeStop, state, visited).1 ==
            Offered(fun, LeafKeys(leaves)[..e], visited)
    decreases |leaves|
  {
    if leaves != [] && e > 0 {
      var r := AtLeaf(fun, leaves[0], start, stop, excludeStop, state, visited);
      var keys := LeafKeys(leaves)[..e];
      assert keys[1..] == LeafKeys(leaves[1..])[..e - 1];
      if r.0 == FOUND {
        ScanFrom(fun, leaves[1..], start, stop, excludeStop, e - 1, FOUND, r.1);
      } else {
        assert e == 1 || !fun(visited, keys[0]);
      }
    }
  }

  /** Before the start nothing is offered. */
  lemma {:induction false} ScanSkips<V>(fun: Callback, leaves: seq<LeafNode<V>>, start: LeafNode<V>,
      stop: LeafNode<V>, excludeStop: bool, i: nat, visited: seq<Key>)
    requires i <= |leaves| && forall n :: 0 <= n < i ==> leaves[n] != start
    ensures Scan(fun, leaves, start, stop, excludeStop, SEARCHING, visited) ==
            Scan(fun, leaves[i..], start, stop, excludeStop, SEARCHING, visited)
    decreases |leaves|
  {
    if i > 0 {
      ScanSkips(fun, leaves[1..], start, stop, excludeStop, i - 1, visited);
      assert leaves[1..][i - 1..] == leaves[i..];
    } else {
      assert leaves[0..] == leaves;
    }
  }

  /** The pass over the leaves offers the keys from the start's up to the stop's, or all from the start's on if
      the stop lies before it. */
  lemma ScanRun<V>(fun: Callback, leaves: seq<LeafNode<V>>, i: nat, s: nat, excludeStop: bool)
    requires i < |leaves| && s < |leaves|
    requires forall a, b :: 0 <= a < b < |leaves| ==> leaves[a] != leaves[b]
    ensures
      var keys, j := LeafKeys(leaves), s + if excludeStop then 0 else 1;
      Scan(fun, leaves, leaves[i], leaves[s], excludeStop, SEARCHING, []).1 ==
        Offered(fun, if i <= s then keys[i..j] else keys[i..], [])
  {
    hide Scan, Offered, LeafKeys;
    var j := s + if excludeStop then 0 else 1;
    var rest, e := leaves[i..], if i <= s then j - i else |leaves| - i;
    ScanSkips(fun, leaves, leaves[i], leaves[s], excludeStop, i, []);
    assert GoesTo(rest, leaves[s], excludeStop, e);
    ScanFrom(fun, rest, leaves[i], leaves[s], excludeStop, e, SEARCHING, []);
    KeysFrom(leaves, i);
    Slices(LeafKeys(leaves), i, e);
  }

  lemma KeysFrom<V>(leaves: seq<LeafNode<V>>, i: nat)
    requires i <= |leaves|
    ensures |LeafKeys(leaves)| == |leaves| && LeafKeys(leaves[i..]) == LeafKeys(leaves)[i..]
  {
  }

  lemma Slices<T>(s: seq<T>, i: nat, e: nat)
    requires i + e <= |s|
    ensures s[i..][..e] == s[i..i + e] && s[i..|s|] == s[i..]
  {
  }

  ghost function LeafKeys<V>(leaves: seq<LeafNode<V>>): seq<Key> {
    seq(|leaves|, i requires 0 <= i < |leaves| => leaves[i].key)
  }

  lemma {:induction false} TipsKeys<V>(s: Shape<V>)
    ensures LeafKeys(Tips(s)) == Order(TreeOf(s))
  {
    if s.Fork? {
      TipsKeys(s.left);
      TipsKeys(s.right);
    }
  }

  /** The leaves of a shape are told apart by their keys. */
  lemma TipsDiffer<V>(s: Shape<V>)
    requires Wf(TreeOf(s))
    ensures |Order(TreeOf(s))| == |Tips(s)| > 0
    ensures forall i :: 0 <= i < |Tips(s)| ==> Tips(s)[i].key == Order(TreeOf(s))[i]
    ensures forall i, j :: 0 <= i < j < |Tips(s)| ==> Tips(s)[i].key != Tips(s)[j].key
  {
    TipsNonEmpty(s);
    TipsKeys(s);
    OrderAscends(TreeOf(s));
    assert forall i :: 0 <= i < |Tips(s)| ==> LeafKeys(Tips(s))[i] == Tips(s)[i].key;
  }

  function Smear(x: bv8): bv8 {
    var x1 := x | (x >> 1);
    var x2 := x1 | (x1 >> 2);
    x2 | (x2 >> 4)
  }

  lemma SmearIsLowMask(b: OtherBits)
    ensures Smear(b ^ 0xFF) == LowMask(8 - PosOf(b))
  {
    assert IsOther(b);
  }

  method Greater(a: Key, b: Key) returns (g: bool)
    ensures g == ComesAfter(a, b)
  {
    var i := 0;
    while i < |a| && i < |b| && a[i] == b[i] && a[i] != 0
      invariant 0 <= i <= |a| && i <= |b|
      invariant a[..i] == b[..i] && 0 !in a[..i]
    {
      assert a[..i + 1] == a[..i] + [a[i]] && b[..i + 1] == b[..i] + [b[i]];
      i := i + 1;
    }
    if i < |a| && i < |b| && a[i] != b[i] {
      assert DifferSeen(a, b, i);
      SeenFirst(a, b, i);
      return a[i] > b[i];
    }
    if i < |a| && i < |b| {
      SharedNulEnds(a, b, i);
    }
    return |a| > |b|;
  }

  /** The walk of both endpoint repairs: the last branch passed before the missing critical bit. */
  method RepairParent<V>(tree: CritBitTree<V>, top: Ptr<V>, ghost s: Shape<V>, key: Key,
      newbyte: nat, newotherbits: OtherBits) returns (parent: Ptr<V>, ghost ps: Shape<V>)
    requires Inside(tree, top, s)
    ensures Inside(tree, parent, ps) && forall l :: l in Tips(ps) ==> l in Tips(s)
    ensures TreeOf(ps) == LastPassed(TreeOf(s), TreeOf(s), key, Index(newbyte, newotherbits))
  {
    hide Inside, Bit, Index;
    InsideKind(tree, top, s);
    var node := top;
    parent, ps := top, s;
    ghost var cur, nb := s, Index(newbyte, newotherbits);
    while node.ToBranch?
      invariant Inside(tree, node, cur) && Inside(tree, parent, ps)
      invariant node == if cur.Fork? then ToBranch(cur.node) else ToLeaf(cur.leaf)
      invariant forall l :: l in Tips(cur) ==> l in Tips(s)
      invariant forall l :: l in Tips(ps) ==> l in Tips(s)
      invariant LastPassed(TreeOf(cur), TreeOf(ps), key, nb) == LastPassed(TreeOf(s), TreeOf(s), key, nb)
      decreases cur
    {
      var q := node.branch;
      BranchAfterIsIndexOrder(q.byte, q.otherbits, newbyte, newotherbits);
      if BranchAfter(q.byte, q.otherbits, newbyte, newotherbits) {
        break;
      }
      parent, ps := node, cur;
      var d := CalculateDirection(q.byte, q.otherbits, key);
      InsideChild(tree, node, cur, d);
      node := q.Child(d);
      cur := cur.Side(d);
      InsideKind(tree, node, cur);
    }
  }

  /** The node of all stored keys that share the endpoints' common prefix. */
  method RangeTop<V>(tree: CritBitTree<V>, first: Key, last: Key) returns (top: Ptr<V>, ghost s: Option<Shape<V>>)
    requires tree.Valid() && OfKind(tree.kind, first) && OfKind(tree.kind, last)
    ensures top == Null <==> s.None?
    ensures s.Some? ==> Inside(tree, top, s.value) && Sound(tree.kind, TreeOf(s.value))
    ensures RangeNode(tree.Model(), TopTree(s), first, CommonBits(tree.kind, first, last))
  {
    var found, diffbyte, diffbits, direction := FindCriticalBit(tree.kind, first, last);
    var j, keylen := 0, |first|;
    if found {
      SmearIsLowMask(diffbits);
      assert Smear(diffbits ^ 0xFF) == LowMask(8 - PosOf(diffbits));
      j, keylen := 8 - PosOf(diffbits), diffbyte + 1;
      FirstDiffUnique(first, last, Index(diffbyte, diffbits), FirstDiff(tree.kind, first, last));
    }
    assert PrefixBits(j, keylen) == CommonBits(tree.kind, first, last);
    top, s := Subtree(tree, first, j, keylen);
    if s.Some? {
      NearestHoldsPrefix(tree.Model().value, first, PrefixBits(j, keylen));
    }
  }

  ghost function TopTree<V>(s: Option<Shape<V>>): Option<Tree<Entry<V>>> {
    if s.None? then None else Some(TreeOf(s.value))
  }

  lemma InsideWalk<V>(tree: CritBitTree<V>, p: Ptr<V>, s: Shape<V>)
    requires Inside(tree, p, s)
    ensures p == PtrOf(s) && Linked(s, LinksOf(tree.nodes))
  {
  }

  lemma SideTips<V>(s: Shape<V>)
    requires s.Fork?
    ensures forall l :: l in Tips(s.left) || l in Tips(s.right) ==> l in Tips(s)
  {
  }

  /** Where the pass starts: the best match for `first`, or the leaf after it if that one is before `first`. */
  method StartLeaf<V>(tree: CritBitTree<V>, top: Ptr<V>, ghost s: Shape<V>, first: Key)
    returns (start: Option<LeafNode<V>>)
    requires Inside(tree, top, s) && Sound(tree.kind, TreeOf(s)) && OfKind(tree.kind, first)
    ensures start.Some? ==> start.value in Tips(s) && StartOf(tree.kind, TreeOf(s), first) == Some(start.value.key)
    ensures start.None? ==> StartOf(tree.kind, TreeOf(s), first) == None
  {
    hide Inside, Wf, Bit, LastPassed, Best, Order, Tips;
    InsideWalk(tree, top, s);
    var leaf := tree.WalkTreeForBestMember(top, first, s);
    assert leaf.key == BestKey(tree.kind, TreeOf(s), first);
    var found, newbyte, newotherbits, newdirection := FindCriticalBit(tree.kind, leaf.key, first);
    if found {
      FirstDiffUnique(leaf.key, first, Index(newbyte, newotherbits), FirstDiff(tree.kind, leaf.key, first));
    }
    if found && !newdirection {
      var parent, ps := RepairParent(tree, top, s, first, newbyte, newotherbits);
      InsideKind(tree, parent, ps);
      if !parent.ToBranch? {
        return None;
      }
      InsideChild(tree, parent, ps, true);
      leaf := Begin(tree, parent.branch.child1, ps.right);
      SideTips(ps);
    }
    start := Some(leaf);
  }

  /** Where it stops: the best match for `last`, or the leaf before it if that one is after `last`; and whether
      that leaf itself is left out. */
  method StopLeaf<V>(tree: CritBitTree<V>, top: Ptr<V>, ghost s: Shape<V>, last: Key)
    returns (stop: LeafNode<V>, excludeStop: bool)
    requires Inside(tree, top, s) && Sound(tree.kind, TreeOf(s)) && OfKind(tree.kind, last)
    ensures stop in Tips(s) && stop.key == StopOf(tree.kind, TreeOf(s), last)
    ensures excludeStop == ComesAfter(stop.key, last)
  {
    hide Inside, Wf, Bit, LastPassed, Best, ComesAfter, Order, Tips;
    InsideWalk(tree, top, s);
    stop := tree.WalkTreeForBestMember(top, last, s);
    assert stop.key == BestKey(tree.kind, TreeOf(s), last);
    var found, newbyte, newotherbits, newdirection := FindCriticalBit(tree.kind, stop.key, last);
    if found {
      FirstDiffUnique(stop.key, last, Index(newbyte, newotherbits), FirstDiff(tree.kind, stop.key, last));
    }
    if found && newdirection {
      var parent, ps := RepairParent(tree, top, s, last, newbyte, newotherbits);
      InsideKind(tree, parent, ps);
      if parent.ToBranch? {
        InsideChild(tree, parent, ps, false);
        stop := End(tree, parent.branch.child0, ps.left);
        SideTips(ps);
      }
    }
    excludeStop := Greater(stop.key, last);
  }

  /** `enumerate(fun, first, last)`: `fun` is offered the keys of a run, in ascending order, up to the first it
      refuses. For any two endpoints the run is exactly the stored keys from `first` to `last` if and only if there
      is nothing with the endpoints' common prefix or the run fits; between stored keys that is exactly when they
      are in order, and on a prefix range always. */
  method EnumerateRange<V>(tree: CritBitTree<V>, fun: Callback, first: Key, last: Key)
    returns (visited: seq<Key>, ghost top: Option<Tree<Entry<V>>>, ghost run: seq<Key>)
    requires tree.Valid() && OfKind(tree.kind, first) && OfKind(tree.kind, last)
    ensures UpToRefusal(fun, run, visited) && Ascending(run)
    ensures RangeNode(tree.Model(), top, first, CommonBits(tree.kind, first, last))
    ensures top.Some? ==> Sound(tree.kind, top.value)
    ensures run == if top.None? then [] else RunOf(tree.kind, top.value, first, last)
    ensures (forall k :: k in run <==> k in KeysOf(tree.Model()) && InRange(k, first, last)) <==>
            (top.None? || RunFits(tree.kind, top.value, first, last))
    ensures first in KeysOf(tree.Model()) && last in KeysOf(tree.Model()) ==>
              ((forall k :: k in run <==> k in KeysOf(tree.Model()) && InRange(k, first, last)) <==>
               !LexLess(last, first))
    ensures forall len :: PrefixRange(tree.kind, first, last, len) ==>
              forall k :: k in run <==> k in KeysOf(tree.Model()) && AgreeBelow(k, first, len)
  {
    hide Wf, Order, StartOf, StopOf, RunOf, RunFits, Ascending, LexLess, PrefixRange, RangeNode, InRange, AgreeBelow;
    hide Linked, Hashed, Distinct, Nodes, Tips, Scan, ComesAfter, CommonBits, TreeOf, UpToRefusal;
    var node, s := RangeTop(tree, first, last);
    top := TopTree(s);
    run := if top.None? then [] else RunOf(tree.kind, top.value, first, last);
    WholeRange(tree.kind, tree.Model(), top, first, last, run);
    FromTheStart(fun, run);
    visited := [];
    if node.Null? {
      return;
    }
    var start := StartLeaf(tree, node, s.value, first);
    if start.None? {
      NoRun(tree.kind, top.value, first, last);
      return;
    }
    var stop, excludeStop := StopLeaf(tree, node, s.value, last);
    var state;
    state, visited := EnumerateNode(tree, fun, node, s.value, start.value, stop, excludeStop, SEARCHING, []);
    RunScanned(tree.kind, fun, s.value, start.value, stop, first, last);
  }

  lemma FromTheStart(fun: Callback, run: seq<Key>)
    ensures UpToRefusal(fun, run, Offered(fun, run, []))
  {
    assert run[0..] == run && run[..0] == [];
    OfferedIs(fun, run, 0);
  }

  lemma RunScanned<V>(kind: Kind, fun: Callback, s: Shape<V>, start: LeafNode<V>, stop: LeafNode<V>,
      first: Key, last: Key)
    requires Sound(kind, TreeOf(s)) && OfKind(kind, first) && OfKind(kind, last)
    requires start in Tips(s) && StartOf(kind, TreeOf(s), first) == Some(start.key)
    requires stop in Tips(s) && StopOf(kind, TreeOf(s), last) == stop.key
    ensures Scan(fun, Tips(s), start, stop, ComesAfter(stop.key, last), SEARCHING, []).1 ==
            Offered(fun, RunOf(kind, TreeOf(s), first, last), [])
  {
    hide StartOf, StopOf, ComesAfter, Wf, Order, Tips, Scan, Offered, LexLess, RunOf, TreeOf, Sound, LeafKeys;
    var i :| 0 <= i < |Tips(s)| && Tips(s)[i] == start;
    var n :| 0 <= n < |Tips(s)| && Tips(s)[n] == stop;
    SoundTips(kind, s);
    RunByPlace(kind, TreeOf(s), first, last, i, n);
    ScanRun(fun, Tips(s), i, n, ComesAfter(stop.key, last));
  }

  lemma SoundTips<V>(kind: Kind, s: Shape<V>)
    requires Sound(kind, TreeOf(s))
    ensures LeafKeys(Tips(s)) == Order(TreeOf(s)) && |Order(TreeOf(s))| == |Tips(s)|
    ensures forall i :: 0 <= i < |Tips(s)| ==> Tips(s)[i].key == Order(TreeOf(s))[i]
    ensures forall i, j :: 0 <= i < j < |Tips(s)| ==> Tips(s)[i] != Tips(s)[j]
  {
    TipsDiffer(s);
    TipsKeys(s);
  }
}
