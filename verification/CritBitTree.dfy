/** The crit-bit tree on the heap, with the Merkle extension's change list. */
module CritBitTree {
  import opened Bits
  import opened CriticalBit
  import opened CritTree
  import opened MerkleHash
  import opened Shapes
  import opened Options

  /** Where a pointer is stored: in the root, or in one of a branch's two child slots. */
  datatype Slot<V> = RootSlot | ChildSlot(of: BranchNode<V>, dir: bool)

  ghost function SlotAt<V>(s: Shape<V>, path: seq<bool>): Slot<V>
    requires OnPath(s, path)
  {
    if path == [] then RootSlot else ChildSlot(ParentOf(s, path), path[|path| - 1])
  }

  ghost function Reverse<T>(s: seq<T>): (r: seq<T>)
    ensures |r| == |s|
    ensures forall i :: 0 <= i < |s| ==> r[i] == s[|s| - 1 - i]
  {
    if s == [] then [] else [s[|s| - 1]] + Reverse(s[..|s| - 1])
  }

  class CritBitTree<V> {
    const kind: Kind
    var root: Ptr<V>
    var changes: seq<BranchNode<V>>
    ghost var shape: Option<Shape<V>>
    ghost var nodes: set<BranchNode<V>>

    ghost function Model(): Option<Tree<Entry<V>>>
      reads this`shape
    {
      if shape.None? then None else Some(TreeOf(shape.value))
    }

    ghost predicate ValidShape()
      reads this`shape, this`nodes, this`root, nodes`child0, nodes`child1
    {
      if shape.None? then root == Null && nodes == {}
      else
        && root == PtrOf(shape.value)
        && nodes == Nodes(shape.value)
        && Distinct(shape.value)
        && Linked(shape.value, LinksOf(nodes))
    }

    ghost predicate Valid()
      reads this, nodes
    {
      && ValidShape()
      && Good(kind, Model())
      && (shape.Some? ==> Hashed(shape.value, HashesOf(nodes)))
      && changes == []
    }

    constructor (kind: Kind)
      ensures Valid() && Model() == None && this.kind == kind
    {
      this.kind := kind;
      root, changes, shape, nodes := Null, [], None, {};
    }

    /** Follow the key's critical bits to a leaf. */
    method WalkTreeForBestMember(start: Ptr<V>, key: Key, ghost s: Shape<V>) returns (leaf: LeafNode<V>)
      requires start == PtrOf(s) && Linked(s, LinksOf(nodes))
      ensures Leaf(leaf.key, leaf.entry) == Best(TreeOf(s), key)
      ensures leaf in Tips(s)
    {
      var p := start;
      ghost var path: seq<bool> := [];
      ghost var cur := s;
      ghost var m := LinksOf(nodes);
      while p.ToBranch?
        invariant OnPath(s, path) && Follows(s, path, key) && cur == At(s, path)
        invariant p == PtrOf(cur) && Linked(cur, m)
        invariant forall l :: l in Tips(cur) ==> l in Tips(s)
        decreases cur
      {
        var d := CalculateDirection(p.branch.byte, p.branch.otherbits, key);
        PathSnoc(s, path, d);
        FollowsSnoc(s, path, key, d);
        path := path + [d];
        p := p.branch.Child(d);
        cur := cur.Side(d);
      }
      BestAlong(s, path, key);
      leaf := p.leaf;
    }

    method Find(key: Key) returns (r: Option<Entry<V>>)
      requires Valid() && OfKind(kind, key)
      ensures r.Some? <==> key in ItemsOf(Model())
      ensures r.Some? ==> r.value == ItemsOf(Model())[key]
    {
      if root.Null? {
        return None;
      }
      var leaf := WalkTreeForBestMember(root, key, shape.value);
      BestFinds(TreeOf(shape.value), key);
      BestIsLeaf(TreeOf(shape.value), key);
      ItemKeys(TreeOf(shape.value));
      if leaf.key != key {
        return None;
      }
      return Some(leaf.entry);
    }

    method Load(slot: Slot<V>) returns (p: Ptr<V>)
      ensures p == if slot.RootSlot? then root else slot.of.Child(slot.dir)
    {
      p := if slot.RootSlot? then root else slot.of.Child(slot.dir);
    }

    /** Write a slot: the subtree at the end of `path` is now `sub`. */
    method Store(slot: Slot<V>, p: Ptr<V>, ghost s: Shape<V>, ghost path: seq<bool>, ghost sub: Shape<V>)
      requires OnPath(s, path) && slot == SlotAt(s, path) && p == PtrOf(sub)
      requires Distinct(s) && Linked(s, LinksOf(Nodes(s)))
      requires Distinct(sub) && Linked(sub, LinksOf(Nodes(sub)))
      requires Nodes(sub) !! (Nodes(s) - Nodes(At(s, path)))
      requires root == PtrOf(s)
      modifies this`root, Nodes(s)`child0, Nodes(s)`child1
      ensures root == PtrOf(Plug(s, path, sub))
      ensures Distinct(Plug(s, path, sub))
      ensures Linked(Plug(s, path, sub), LinksOf(Nodes(Plug(s, path, sub))))
    {
      hide Linked, Distinct, Nodes, At, Chain, OnPath, Plug, SlotAt;
      ghost var all := Nodes(s) + Nodes(sub);
      ghost var m := LinksOf(all);
      PlugPath(s, path, sub);
      PlugDistinct(s, path, sub);
      LinkedIn(s, Nodes(s), all);
      LinkedIn(sub, Nodes(sub), all);
      SlotOutside(s, path, sub);
      if slot.RootSlot? {
        root := p;
      } else {
        slot.of.SetChild(slot.dir, p);
        LinkedFrame(sub, m, LinksOf(all));
        Splice(s, path, sub, m, LinksOf(all));
      }
      LinkedIn(Plug(s, path, sub), all, Nodes(Plug(s, path, sub)));
    }

    /** The second walk of `insert`: the slot where the new branch goes; every branch passed is pushed. */
    method FindSlot(key: Key, newbyte: nat, newotherbits: OtherBits, ghost s: Shape<V>)
      returns (slot: Slot<V>, ghost path: seq<bool>)
      requires root == PtrOf(s) && Linked(s, LinksOf(Nodes(s)))
      requires changes == []
      modifies this`changes
      ensures Walked(s, path, key, Index(newbyte, newotherbits)) && slot == SlotAt(s, path)
      ensures At(s, path).Fork? ==> Index(newbyte, newotherbits) < At(s, path).node.Critical()
      ensures changes == Reverse(Chain(s, path))
      ensures PtrOf(At(s, path)) == if slot.RootSlot? then root else slot.of.Child(slot.dir)
    {
      hide Linked, Distinct, XorOf, BitOf, Bit, Wf, Nodes, TreeOf, Index, BranchAfter;
      slot, path := RootSlot, [];
      ghost var cur := s;
      ghost var m := LinksOf(Nodes(s));
      ghost var nb := Index(newbyte, newotherbits);
      while true
        invariant Walked(s, path, key, nb) && slot == SlotAt(s, path) && cur == At(s, path)
        invariant changes == Reverse(Chain(s, path))
        invariant Linked(cur, m) && root == PtrOf(s) && m == LinksOf(Nodes(s))
        invariant PtrOf(cur) == if slot.RootSlot? then root else slot.of.Child(slot.dir)
        decreases cur
      {
        var node := Load(slot);
        if !node.ToBranch? {
          break;
        }
        var branch := node.branch;
        BranchAfterIsIndexOrder(branch.byte, branch.otherbits, newbyte, newotherbits);
        if BranchAfter(branch.byte, branch.otherbits, newbyte, newotherbits) {
          break;
        }
        var d := CalculateDirection(branch.byte, branch.otherbits, key);
        WalkStep(s, path, key, nb, d);
        StepDown(cur, m, d);
        slot := ChildSlot(branch, d);
        changes := [branch] + changes;
        path := path + [d];
        cur := cur.Side(d);
      }
    }

    method InsertIntoEmptyTree(key: Key, entry: Entry<V>) returns (at: LeafNode<V>)
      requires Valid() && root.Null? && OfKind(kind, key)
      modifies this
      ensures Valid() && nodes == {} && Model() == Some(Leaf(key, entry))
      ensures at.key == key && at.entry == entry && fresh(at) && shape == Some(Tip(at))
    {
      at := new LeafNode(key, entry);
      root, shape := ToLeaf(at), Some(Tip(at));
    }

    /** Insert a key that is not there yet; `isNew` says whether it was not. */
    method Insert(key: Key, entry: Entry<V>) returns (isNew: bool, at: LeafNode<V>)
      requires Valid() && OfKind(kind, key)
      modifies this, nodes
      ensures Valid() && fresh(nodes - old(nodes))
      ensures Model() == Apply(kind, old(Model()), CritTree.Insert(key, entry))
      ensures isNew <==> key !in KeysOf(old(Model()))
      ensures Model().Some? && Best(Model().value, key) == Leaf(at.key, at.entry) && at.key == key
      ensures at in Tips(shape.value) && (isNew ==> fresh(at) && at.entry == entry)
    {
      if root.Null? {
        at := InsertIntoEmptyTree(key, entry);
        return true, at;
      }
      hide Linked, Hashed, Distinct, Nodes, XorOf, BitOf, Bit, Wf, InsertAt, AgreeBelow, OfKind, Index, IsFirstDiff;
      ghost var t := TreeOf(shape.value);
      BestIsLeaf(t, key);
      BestFinds(t, key);
      var closest := WalkTreeForBestMember(root, key, shape.value);
      var found, newbyte, newotherbits, newdirection := FindCriticalBit(kind, closest.key, key);
      if !found {
        return false, closest;
      }
      at := InsertNew(key, entry, newbyte, newotherbits, newdirection);
      return true, at;
    }

    /** The part of `insert` after its first walk has shown that the key is new. */
    method InsertNew(key: Key, entry: Entry<V>, newbyte: nat, newotherbits: OtherBits, newdirection: bool)
      returns (at: LeafNode<V>)
      requires Valid() && OfKind(kind, key) && shape.Some?
      requires NewAt(TreeOf(shape.value), key, Index(newbyte, newotherbits))
      requires newdirection == !Bit(key, Index(newbyte, newotherbits))
      modifies this, nodes
      ensures Valid() && fresh(nodes - old(nodes))
      ensures Model() == Apply(kind, old(Model()), CritTree.Insert(key, entry))
      ensures Model().Some? && Best(Model().value, key) == Leaf(at.key, at.entry) && at.key == key
      ensures at in Tips(shape.value) && fresh(at) && at.entry == entry
    {
      hide Linked, Hashed, Distinct, Nodes, XorOf, BitOf, Bit, Wf, InsertAt, AgreeBelow, OfKind, Index, Good, Apply;
      InsertIsApply(kind, TreeOf(shape.value), key, entry, Index(newbyte, newotherbits));
      var newnode := new BranchNode(newbyte, newotherbits);
      at := new LeafNode(key, entry);
      newnode.SetChild(!newdirection, ToLeaf(at));
      PlaceBranch(newnode, at, newdirection);
    }

    /** The pointer surgery of `insert`: hang the new branch, adopt the old subtree, rehash. */
    method PlaceBranch(newnode: BranchNode<V>, x: LeafNode<V>, newdirection: bool)
      requires Valid() && shape.Some? && newnode !in nodes
      requires newnode.Child(!newdirection) == ToLeaf(x)
      requires newdirection == !Bit(x.key, newnode.Critical())
      requires Good(kind, Some(InsertAt(TreeOf(shape.value), x.key, x.entry, newnode.Critical())))
      modifies this, nodes, newnode
      ensures Valid() && nodes <= old(nodes) + {newnode}
      ensures Model() == Some(InsertAt(TreeOf(old(shape.value)), x.key, x.entry, newnode.Critical()))
      ensures x in Tips(shape.value)
    {
      hide Linked, Hashed, Distinct, XorOf, BitOf, Bit, Wf, OnPath, At, Chain, Reverse, Plug, Follows, BitsUpTo;
      ghost var s, m, h := shape.value, LinksOf(nodes), HashesOf(nodes);
      var slot, path := FindSlot(x.key, newnode.byte, newnode.otherbits, s);
      ghost var cur := At(s, path);
      var child := Load(slot);
      newnode.SetChild(newdirection, child);
      assert LinksOf(nodes) == m && HashesOf(nodes) == h;
      ghost var sub := if newdirection then Fork(newnode, Tip(x), cur) else Fork(newnode, cur, Tip(x));
      InsertAlong(s, path, x.key, x.entry, newnode.Critical(), sub);
      HangBranch(newnode, slot, path, sub, newdirection);
      TipsPlugged(s, path, sub, x);
    }

    method HangBranch(newnode: BranchNode<V>, slot: Slot<V>, ghost path: seq<bool>, ghost sub: Shape<V>, ghost d: bool)
      requires ValidShape() && shape.Some? && OnPath(shape.value, path) && slot == SlotAt(shape.value, path)
      requires Hashed(shape.value, HashesOf(nodes))
      requires changes == Reverse(Chain(shape.value, path))
      requires sub.Fork? && sub.Side(!d).Tip? && sub.Side(d) == At(shape.value, path)
      requires newnode == sub.node && newnode !in nodes
      requires newnode.child0 == PtrOf(sub.left) && newnode.child1 == PtrOf(sub.right)
      modifies this, nodes, newnode
      ensures ValidShape() && nodes <= old(nodes) + {newnode}
      ensures shape == Some(Plug(old(shape.value), path, sub))
      ensures Hashed(shape.value, HashesOf(nodes))
      ensures changes == []
    {
      hide Linked, Hashed, HashedOff, Plug, Distinct, Nodes, OnPath, At, Chain, TreeOf, XorOf, Reverse, BitOf, Bit;
      ghost var s := shape.value;
      ghost var s' := Plug(s, path, sub);
      SubReady(s, path, sub, d);
      StaleReady(s, path, sub, d);
      Store(slot, ToBranch(newnode), s, path, sub);
      SameHashes(Nodes(s'));
      label Stored:
      changes := [newnode] + changes;
      shape, nodes := Some(s'), Nodes(s');
      SameHashes@Stored(nodes);
      SameLinks@Stored(nodes);
      OnChange(s', path + [d]);
      SameLinks@Stored(nodes);
    }

    /** The walk of `remove`: the best match, its parent, the parent's own slot, and the branches pushed,
        which are all those passed except the parent. */
    method FindLeaf(key: Key, ghost s: Shape<V>)
      returns (leaf: LeafNode<V>, whereParent: Option<Slot<V>>, parent: BranchNode?<V>, direction: bool,
               ghost path: seq<bool>)
      requires root == PtrOf(s) && Linked(s, LinksOf(Nodes(s)))
      requires changes == []
      modifies this`changes
      ensures OnPath(s, path) && At(s, path) == Tip(leaf)
      ensures Follows(s, path, key)
      ensures path == [] ==> whereParent.None? && changes == []
      ensures path != [] ==> AtParent(s, path, whereParent, parent, direction)
      ensures path != [] ==> changes == Reverse(Chain(s, path[..|path| - 1]))
      ensures path != [] ==> parent.Child(!direction) == PtrOf(At(s, path[..|path| - 1]).Side(!direction))
    {
      hide Linked, Distinct, BitOf, Bit, Wf, Nodes, TreeOf, OfKind, OnPath, At, SlotAt, Follows;
      hide Chain, Reverse, AtParent;
      AtRoot(s, key);
      var best := root;
      var whereBest := RootSlot;
      whereParent, parent, direction, path := None, null, false, [];
      ghost var cur := s;
      ghost var m := LinksOf(Nodes(s));
      while best.ToBranch?
        invariant OnPath(s, path) && Follows(s, path, key) && cur == At(s, path)
        invariant whereBest == SlotAt(s, path) && best == PtrOf(cur)
        invariant root == PtrOf(s) && Linked(cur, m) && m == LinksOf(Nodes(s))
        invariant path == [] ==> whereParent.None? && changes == []
        invariant path != [] ==> AtParent(s, path, whereParent, parent, direction) && parent != null
        invariant path != [] ==> OnPath(s, path[..|path| - 1]) && At(s, path[..|path| - 1]).Fork?
        invariant path != [] ==> parent.Child(!direction) == PtrOf(At(s, path[..|path| - 1]).Side(!direction))
        invariant changes == Reverse(Chain(s, if cur.Fork? || path == [] then path else path[..|path| - 1]))
        decreases cur
      {
        whereParent := Some(whereBest);
        parent := best.branch;
        direction := CalculateDirection(parent.byte, parent.otherbits, key);
        StepDown(cur, m, direction);
        StepDown(cur, m, !direction);
        DownOne(s, path, key, direction);
        whereBest := ChildSlot(parent, direction);
        best := Load(whereBest);
        if best.ToBranch? {
          changes := [parent] + changes;
        }
        path := path + [direction];
        cur := cur.Side(direction);
      }
      leaf := best.leaf;
    }

    /** Remove a key; 1 if it was there, 0 if not. */
    method Remove(key: Key) returns (removed: nat)
      requires Valid() && OfKind(kind, key)
      modifies this, nodes
      ensures Valid() && nodes <= old(nodes)
      ensures Model() == Apply(kind, old(Model()), CritTree.Remove(key))
      ensures removed == if key in KeysOf(old(Model())) then 1 else 0
    {
      hide Linked, Hashed, Distinct, Nodes, BitOf, Bit, Wf, OnPath, At, Chain, Reverse, Plug, Follows, OfKind;
      if root.Null? {
        return 0;
      }
      ghost var s := shape.value;
      var leaf, whereParent, parent, direction, path := FindLeaf(key, s);
      BestAlong(s, path, key);
      BestFinds(TreeOf(s), key);
      ApplyRefines(kind, Some(TreeOf(s)), CritTree.Remove(key));
      if leaf.key != key {
        DeleteAbsent(TreeOf(s), key);
        changes := [];
        return 0;
      }
      removed := 1;
      LeafPath(s, path);
      if whereParent.None? {
        root, shape, nodes := Null, None, {};
      } else {
        PromoteSibling(key, parent, direction, whereParent.value, path);
      }
    }

    /** The pointer surgery of `remove`: the sibling replaces the parent; rehash the rest of the path. */
    method PromoteSibling(key: Key, parent: BranchNode<V>, direction: bool, whereParent: Slot<V>, ghost path: seq<bool>)
      requires ValidShape() && shape.Some? && path != []
      requires OnPath(shape.value, path) && Follows(shape.value, path, key)
      requires At(shape.value, path).Tip? && At(shape.value, path).leaf.key == key
      requires AtParent(shape.value, path, Some(whereParent), parent, direction)
      requires parent.Child(!direction) == PtrOf(At(shape.value, path[..|path| - 1]).Side(!direction))
      requires Hashed(shape.value, HashesOf(nodes))
      requires changes == Reverse(Chain(shape.value, path[..|path| - 1]))
      modifies this, nodes
      ensures ValidShape() && nodes <= old(nodes)
      ensures shape.Some? && Some(TreeOf(shape.value)) == Delete(TreeOf(old(shape.value)), key)
      ensures Hashed(shape.value, HashesOf(nodes))
      ensures changes == []
    {
      hide Linked, Hashed, HashedOff, Plug, Distinct, Nodes, OnPath, At, Chain, TreeOf, XorOf, Reverse, BitOf, Bit;
      ghost var s := shape.value;
      ghost var up := path[..|path| - 1];
      ghost var sub := At(s, up).Side(!direction);
      ghost var s' := Plug(s, up, sub);
      assert path == up + [direction];
      SiblingReady(s, up, key, direction);
      DeleteAlong(s, up, key, sub);
      Store(whereParent, parent.Child(!direction), s, up, sub);
      SameHashes(Nodes(s'));
      label Stored:
      shape, nodes := Some(s'), Nodes(s');
      SameHashes@Stored(nodes);
      SameLinks@Stored(nodes);
      OnChange(s', up);
      SameLinks@Stored(nodes);
    }

    /** `onchange`: recompute the pushed branches, front of the deque first. */
    method OnChange(ghost s: Shape<V>, ghost path: seq<bool>)
      requires OnPath(s, path) && Distinct(s)
      requires Linked(s, LinksOf(Nodes(s)))
      requires HashedOff(s, path, HashesOf(Nodes(s)))
      requires changes == Reverse(Chain(s, path))
      modifies this`changes, Nodes(s)`hash
      ensures Hashed(s, HashesOf(Nodes(s)))
      ensures changes == []
    {
      hide Linked, Hashed, HashedOff, Distinct, OnPath, At, Chain, BitOf, Bit, XorOf, TreeOf;
      ghost var ns, m := Nodes(s), LinksOf(Nodes(s));
      var i := 0;
      assert path[..|path|] == path;
      while i < |changes|
        invariant i <= |changes| == |path|
        invariant OnPath(s, path[..|path| - i])
        invariant HashedOff(s, path[..|path| - i], HashesOf(ns))
        invariant changes == old(changes)
        invariant LinksOf(ns) == m
      {
        ghost var k := |path| - i - 1;
        ChainNode(s, path, k);
        RehashBranch(changes[i], s, path[..k], path[k]);
        assert LinksOf(ns) == m;
        i := i + 1;
      }
      assert path[..0] == [];
      WholePath(s, HashesOf(ns));
      changes := [];
    }

    static method RehashBranch(branch: BranchNode<V>, ghost s: Shape<V>, ghost path: seq<bool>, ghost d: bool)
      requires OnPath(s, path) && At(s, path).Fork? && OnPath(s, path + [d]) && branch == At(s, path).node
      requires Distinct(s) && Linked(s, LinksOf(Nodes(s)))
      requires HashedOff(s, path + [d], HashesOf(Nodes(s)))
      modifies branch`hash
      ensures HashedOff(s, path, HashesOf(Nodes(s)))
    {
      ghost var h := HashesOf(Nodes(s));
      ReadyToRehash(s, path, d);
      branch.hash := Mix(GetHash(branch.child0), GetHash(branch.child1));
      ForkXor(At(s, path));
      ghost var h' := HashesOf(Nodes(s));
      assert forall n :: n in h && n != branch ==> h'[n] == h[n];
      Rehash(s, path, d, h, h');
    }
  }

  lemma InsertIsApply<V>(kind: Kind, t: Tree<V>, key: Key, e: V, nb: nat)
    requires Good(kind, Some(t)) && OfKind(kind, key)
    requires NewAt(t, key, nb)
    ensures Apply(kind, Some(t), CritTree.Insert(key, e)) == Some(InsertAt(t, key, e, nb))
    ensures Good(kind, Some(InsertAt(t, key, e, nb)))
    ensures Best(InsertAt(t, key, e, nb), key) == Leaf(key, e)
  {
    BestIsLeaf(t, key);
    FirstDiffUnique(Best(t, key).key, key, nb, FirstDiff(kind, Best(t, key).key, key));
    ApplyRefines(kind, Some(t), CritTree.Insert(key, e));
    BestInserted(t, key, e, nb);
  }

  /** The walk so far is the key's, past no branch whose critical bit is after `nb`. */
  ghost predicate Walked<V>(s: Shape<V>, path: seq<bool>, key: Key, nb: nat) {
    OnPath(s, path) && Follows(s, path, key) && BitsUpTo(s, path, nb)
  }

  lemma WalkStep<V>(s: Shape<V>, path: seq<bool>, key: Key, nb: nat, d: bool)
    requires Walked(s, path, key, nb) && At(s, path).Fork?
    requires At(s, path).node.Critical() <= nb && d == Bit(key, At(s, path).node.Critical())
    ensures Walked(s, path + [d], key, nb)
    ensures SlotAt(s, path + [d]) == ChildSlot(At(s, path).node, d)
    ensures At(s, path + [d]) == At(s, path).Side(d)
    ensures Reverse(Chain(s, path + [d])) == [At(s, path).node] + Reverse(Chain(s, path))
  {
    PathSnoc(s, path, d);
    FollowsSnoc(s, path, key, d);
    BitsSnoc(s, path, nb, d);
  }

  lemma StepDown<V>(s: Shape<V>, m: Links<V>, d: bool)
    requires s.Fork? && Linked(s, m)
    ensures s.node in m && Linked(s.Side(d), m)
    ensures PtrOf(s.Side(d)) == if d then m[s.node].1 else m[s.node].0
  {
  }

  /** `parent` is the last branch of the path, `whereParent` the slot it hangs from. */
  ghost predicate AtParent<V>(s: Shape<V>, path: seq<bool>, whereParent: Option<Slot<V>>, parent: BranchNode?<V>,
                              d: bool)
    requires OnPath(s, path) && path != []
  {
    && OnPath(s, path[..|path| - 1])
    && At(s, path[..|path| - 1]).Fork?
    && parent == At(s, path[..|path| - 1]).node
    && At(s, path) == At(s, path[..|path| - 1]).Side(d)
    && d == path[|path| - 1]
    && whereParent == Some(SlotAt(s, path[..|path| - 1]))
  }

  lemma {:induction false} TipsPlugged<V>(s: Shape<V>, path: seq<bool>, sub: Shape<V>, x: LeafNode<V>)
    requires OnPath(s, path) && x in Tips(sub)
    ensures x in Tips(Plug(s, path, sub))
  {
    if path != [] {
      TipsPlugged(s.Side(path[0]), path[1..], sub, x);
    }
  }

  /** A slot above the end of a path is no part of what is put there. */
  lemma SlotOutside<V>(s: Shape<V>, path: seq<bool>, sub: Shape<V>)
    requires OnPath(s, path) && Distinct(s) && Nodes(sub) !! (Nodes(s) - Nodes(At(s, path)))
    ensures path == [] ==> SlotAt(s, path) == RootSlot && Plug(s, path, sub) == sub
    ensures path != [] ==>
              && SlotAt(s, path) == ChildSlot(ParentOf(s, path), path[|path| - 1])
              && ParentOf(s, path) in Nodes(s) && ParentOf(s, path) !in Nodes(sub)
  {
    SubNodes(s, path);
    if path != [] {
      assert ParentOf(s, path) in Chain(s, path);
    }
  }

  twostate lemma SameHashes<V>(ns: set<BranchNode<V>>)
    requires forall n :: n in ns ==> n.hash == old(n.hash)
    ensures HashesOf(ns) == old(HashesOf(ns))
  {
  }

  twostate lemma SameLinks<V>(ns: set<BranchNode<V>>)
    requires forall n :: n in ns ==> n.child0 == old(n.child0) && n.child1 == old(n.child1)
    ensures LinksOf(ns) == old(LinksOf(ns))
  {
  }

  lemma AtRoot<V>(s: Shape<V>, key: Key)
    ensures OnPath(s, []) && At(s, []) == s && SlotAt(s, []) == RootSlot && Follows(s, [], key)
    ensures Reverse(Chain(s, [])) == []
  {
  }

  lemma DownOne<V>(s: Shape<V>, path: seq<bool>, key: Key, d: bool)
    requires OnPath(s, path) && Follows(s, path, key) && At(s, path).Fork?
    requires d == Bit(key, At(s, path).node.Critical())
    ensures OnPath(s, path + [d]) && Follows(s, path + [d], key)
    ensures AtParent(s, path + [d], Some(SlotAt(s, path)), At(s, path).node, d)
    ensures At(s, path + [d]) == At(s, path).Side(d)
    ensures SlotAt(s, path + [d]) == ChildSlot(At(s, path).node, d)
    ensures Reverse(Chain(s, path + [d])) == [At(s, path).node] + Reverse(Chain(s, path))
    ensures (path + [d])[..|path + [d]| - 1] == path
  {
    PathSnoc(s, path, d);
    FollowsSnoc(s, path, key, d);
    assert (path + [d])[..|path + [d]| - 1] == path;
  }

  lemma LeafPath<V>(s: Shape<V>, path: seq<bool>)
    requires OnPath(s, path) && At(s, path).Tip?
    ensures path == [] <==> s.Tip?
  {
  }

  lemma {:induction false} FollowsPrefix<V>(s: Shape<V>, up: seq<bool>, d: bool, key: Key)
    requires OnPath(s, up) && At(s, up).Fork? && OnPath(s, up + [d]) && Follows(s, up + [d], key)
    ensures Follows(s, up, key) && d == Bit(key, At(s, up).node.Critical())
  {
    if up != [] {
      assert (up + [d])[1..] == up[1..] + [d];
      FollowsPrefix(s.Side(up[0]), up[1..], d, key);
    }
  }

  /** What the surgery of `remove` needs of the sibling's subtree, just before it is stored. */
  ghost predicate SiblingFits<V>(s: Shape<V>, up: seq<bool>, key: Key, sub: Shape<V>)
    reads Nodes(s), Nodes(sub), if OnPath(s, up) then Nodes(Plug(s, up, sub)) else {}
  {
    && OnPath(s, up) && Follows(s, up, key)
    && Distinct(sub) && Linked(sub, LinksOf(Nodes(sub)))
    && Nodes(sub) !! (Nodes(s) - Nodes(At(s, up)))
    && Nodes(Plug(s, up, sub)) <= Nodes(s)
    && OnPath(Plug(s, up, sub), up) && Chain(Plug(s, up, sub), up) == Chain(s, up)
    && HashedOff(Plug(s, up, sub), up, HashesOf(Nodes(Plug(s, up, sub))))
    && Delete(TreeOf(At(s, up)), key) == Some(TreeOf(sub))
  }

  lemma SiblingReady<V>(s: Shape<V>, up: seq<bool>, key: Key, d: bool)
    requires OnPath(s, up) && At(s, up).Fork? && OnPath(s, up + [d]) && Follows(s, up + [d], key)
    requires At(s, up).Side(d).Tip? && At(s, up).Side(d).leaf.key == key
    requires Distinct(s) && Linked(s, LinksOf(Nodes(s))) && Hashed(s, HashesOf(Nodes(s)))
    ensures SiblingFits(s, up, key, At(s, up).Side(!d))
  {
    var at := At(s, up);
    var sub := at.Side(!d);
    var m, h := LinksOf(Nodes(s)), HashesOf(Nodes(s));
    FollowsPrefix(s, up, d, key);
    SubNodes(s, up);
    SubLinked(s, up, m);
    SubHashed(s, up, h);
    LinkedFrame(sub, m, LinksOf(Nodes(sub)));
    PlugPath(s, up, sub);
    SpliceHashes(s, up, sub, h);
    HashedOffFrame(Plug(s, up, sub), up, h, HashesOf(Nodes(Plug(s, up, sub))));
  }

  /** The new branch's subtree, just before it is stored. */
  lemma SubReady<V>(s: Shape<V>, path: seq<bool>, sub: Shape<V>, d: bool)
    requires OnPath(s, path) && Distinct(s) && Linked(s, LinksOf(Nodes(s)))
    requires sub.Fork? && sub.Side(!d).Tip? && sub.Side(d) == At(s, path)
    requires sub.node !in Nodes(s)
    requires sub.node.child0 == PtrOf(sub.left) && sub.node.child1 == PtrOf(sub.right)
    ensures Distinct(sub) && Linked(sub, LinksOf(Nodes(sub)))
    ensures Nodes(sub) !! (Nodes(s) - Nodes(At(s, path)))
    ensures Nodes(Plug(s, path, sub)) <= Nodes(s) + {sub.node}
    ensures OnPath(Plug(s, path, sub), path + [d])
    ensures Reverse(Chain(Plug(s, path, sub), path + [d])) == [sub.node] + Reverse(Chain(s, path))
  {
    PlugPath(s, path, sub);
    PathSnoc(Plug(s, path, sub), path, d);
    SubNodes(s, path);
    SubLinked(s, path, LinksOf(Nodes(s)));
    LinkedFrame(At(s, path), LinksOf(Nodes(s)), LinksOf(Nodes(sub)));
    assert LinksOf(Nodes(sub))[sub.node] == (sub.node.child0, sub.node.child1);
  }

  lemma StaleReady<V>(s: Shape<V>, path: seq<bool>, sub: Shape<V>, d: bool)
    requires OnPath(s, path) && Distinct(s)
    requires sub.Fork? && sub.Side(!d).Tip? && sub.Side(d) == At(s, path)
    requires Hashed(s, HashesOf(Nodes(s)))
    ensures OnPath(Plug(s, path, sub), path + [d])
    ensures HashedOff(Plug(s, path, sub), path + [d], HashesOf(Nodes(Plug(s, path, sub))))
  {
    var h := HashesOf(Nodes(s));
    var s' := Plug(s, path, sub);
    SubHashed(s, path, h);
    SpliceStale(s, path, sub, d, h);
    PlugPath(s, path, sub);
    NodesKept(s, path, sub);
    HashedOffFrame(s', path + [d], h, HashesOf(Nodes(s')));
  }

  /** Every old node is still there when the new subtree keeps those it replaces. */
  lemma {:induction false} NodesKept<V>(s: Shape<V>, path: seq<bool>, sub: Shape<V>)
    requires OnPath(s, path) && Nodes(At(s, path)) <= Nodes(sub)
    ensures Nodes(s) <= Nodes(Plug(s, path, sub))
  {
    if path != [] {
      NodesKept(s.Side(path[0]), path[1..], sub);
    }
  }

  function GetHash<V>(p: Ptr<V>): Hash
    requires !p.Null?
    reads if p.ToBranch? then {p.branch} else {}
  {
    if p.ToLeaf? then p.leaf.entry.hash else p.branch.hash
  }

  lemma ReadyToRehash<V>(s: Shape<V>, path: seq<bool>, d: bool)
    requires OnPath(s, path) && At(s, path).Fork? && OnPath(s, path + [d])
    requires Distinct(s) && Linked(s, LinksOf(Nodes(s)))
    requires HashedOff(s, path + [d], HashesOf(Nodes(s)))
    ensures At(s, path).node in Nodes(s)
    ensures At(s, path).node.child0 == PtrOf(At(s, path).left)
    ensures At(s, path).node.child1 == PtrOf(At(s, path).right)
    ensures GetHash(At(s, path).node.child0) == XorOf(TreeOf(At(s, path).left))
    ensures GetHash(At(s, path).node.child1) == XorOf(TreeOf(At(s, path).right))
  {
    var at := At(s, path);
    SubNodes(s, path);
    SubLinked(s, path, LinksOf(Nodes(s)));
    assert LinksOf(Nodes(s))[at.node] == (at.node.child0, at.node.child1);
    ChildrenHashed(s, path, d, HashesOf(Nodes(s)));
    HashReads(at.left, Nodes(s));
    HashReads(at.right, Nodes(s));
  }

  lemma ForkXor<V>(s: Shape<V>)
    requires s.Fork?
    ensures XorOf(TreeOf(s)) == Mix(XorOf(TreeOf(s.left)), XorOf(TreeOf(s.right)))
  {
  }

  lemma HashReads<V>(s: Shape<V>, ns: set<BranchNode<V>>)
    requires Hashed(s, HashesOf(ns))
    ensures GetHash(PtrOf(s)) == XorOf(TreeOf(s))
  {
  }

  lemma WholePath<V>(s: Shape<V>, h: Hashes<V>)
    requires HashedOff(s, [], h)
    ensures Hashed(s, h)
  {
  }

  lemma ChainNode<V>(s: Shape<V>, path: seq<bool>, k: nat)
    requires OnPath(s, path) && Distinct(s) && k < |path|
    ensures OnPath(s, path[..k]) && At(s, path[..k]).Fork? && At(s, path[..k]).node == Chain(s, path)[k]
    ensures OnPath(s, path[..k] + [path[k]]) && path[..k] + [path[k]] == path[..k + 1]
    ensures Chain(s, path)[k] in Nodes(s)
  {
    Prefix(s, path, k);
    SubNodes(s, path[..k]);
  }

  lemma {:induction false} Prefix<V>(s: Shape<V>, path: seq<bool>, k: nat)
    requires OnPath(s, path) && k < |path|
    ensures OnPath(s, path[..k]) && At(s, path[..k]).Fork? && At(s, path[..k]).node == Chain(s, path)[k]
    ensures OnPath(s, path[..k] + [path[k]])
  {
    hide Nodes, Distinct, Linked;
    var up := path[..k];
    if k > 0 {
      var rest := path[1..];
      Prefix(s.Side(path[0]), rest, k - 1);
      assert up[0] == path[0] && up[1..] == rest[..k - 1];
      PrefixMore(up, path[k]);
      assert rest[k - 1] == path[k];
    } else {
      assert up == [] && [path[0]][1..] == [];
      assert up + [path[0]] == [path[0]];
    }
  }

  lemma PrefixMore(up: seq<bool>, d: bool)
    requires up != []
    ensures (up + [d])[0] == up[0] && (up + [d])[1..] == up[1..] + [d]
  {
  }
}
