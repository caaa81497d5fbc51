/** The heap nodes of the crit-bit tree, and the ghost shapes that say how they are linked. */
module Shapes {
  import opened Bits
  import opened CritTree
  import opened MerkleHash
  import opened Options

  class LeafNode<V> {
    const key: Key
    const entry: Entry<V>

    constructor (key: Key, entry: Entry<V>)
      ensures this.key == key && this.entry == entry
    {
      this.key := key;
      this.entry := entry;
    }
  }

  /** A tagged pointer: null, a leaf, or a branch. */
  datatype Ptr<V> = Null | ToLeaf(leaf: LeafNode<V>) | ToBranch(branch: BranchNode<V>)

  class BranchNode<V> {
    var child0: Ptr<V>
    var child1: Ptr<V>
    const byte: nat
    const otherbits: OtherBits
    var hash: Hash

    constructor (byte: nat, otherbits: OtherBits)
      ensures this.byte == byte && this.otherbits == otherbits
    {
      this.byte := byte;
      this.otherbits := otherbits;
      child0, child1, hash := Null, Null, 0;
    }

    /** The index of the critical bit. */
    function Critical(): nat {
      Index(byte, otherbits)
    }

    function Child(d: bool): Ptr<V>
      reads this
    {
      if d then child1 else child0
    }

    method SetChild(d: bool, p: Ptr<V>)
      modifies this`child0, this`child1
      ensures child0 == (if d then old(child0) else p) && child1 == (if d then p else old(child1))
    {
      if d { child1 := p; } else { child0 := p; }
    }
  }

  /** The tree of nodes a pointer leads to. */
  datatype Shape<V> =
    | Tip(leaf: LeafNode<V>)
    | Fork(node: BranchNode<V>, left: Shape<V>, right: Shape<V>)
  {
    ghost function Side(d: bool): Shape<V>
      requires Fork?
    {
      if d then right else left
    }
  }

  ghost function PtrOf<V>(s: Shape<V>): Ptr<V> {
    match s
    case Tip(l) => ToLeaf(l)
    case Fork(n, _, _) => ToBranch(n)
  }

  ghost function Nodes<V>(s: Shape<V>): set<BranchNode<V>> {
    match s
    case Tip(_) => {}
    case Fork(n, l, r) => {n} + Nodes(l) + Nodes(r)
  }

  ghost function Tips<V>(s: Shape<V>): seq<LeafNode<V>> {
    match s
    case Tip(l) => [l]
    case Fork(_, l, r) => Tips(l) + Tips(r)
  }

  /** The tree value a shape stands for; it needs no heap, because keys and critical bits are constant. */
  ghost function TreeOf<V>(s: Shape<V>): Tree<Entry<V>> {
    match s
    case Tip(l) => Leaf(l.key, l.entry)
    case Fork(n, l, r) => Branch(n.Critical(), TreeOf(l), TreeOf(r))
  }

  /** No node occurs twice. */
  ghost predicate Distinct<V>(s: Shape<V>) {
    match s
    case Tip(_) => true
    case Fork(n, l, r) =>
      n !in Nodes(l) && n !in Nodes(r) && Nodes(l) !! Nodes(r) && Distinct(l) && Distinct(r)
  }

  /** The child pointers and the stored hashes of a set of nodes. */
  type Links<!V> = map<BranchNode<V>, (Ptr<V>, Ptr<V>)>
  type Hashes<!V> = map<BranchNode<V>, Hash>

  ghost function LinksOf<V>(ns: set<BranchNode<V>>): Links<V>
    reads ns`child0, ns`child1
  {
    map n | n in ns :: (n.child0, n.child1)
  }

  ghost function HashesOf<V>(ns: set<BranchNode<V>>): Hashes<V>
    reads ns`hash
  {
    map n | n in ns :: n.hash
  }

  /** The child pointers are as the shape says. */
  ghost predicate Linked<V>(s: Shape<V>, m: Links<V>) {
    match s
    case Tip(_) => true
    case Fork(n, l, r) => n in m && m[n] == (PtrOf(l), PtrOf(r)) && Linked(l, m) && Linked(r, m)
  }

  /** Every branch stores the XOR of the leaf hashes below it. */
  ghost predicate Hashed<V>(s: Shape<V>, h: Hashes<V>) {
    match s
    case Tip(_) => true
    case Fork(n, l, r) => n in h && h[n] == XorOf(TreeOf(s)) && Hashed(l, h) && Hashed(r, h)
  }

  /** Every branch but those passed on the path does. */
  ghost predicate HashedOff<V>(s: Shape<V>, path: seq<bool>, h: Hashes<V>)
    requires OnPath(s, path)
  {
    if path == [] then Hashed(s, h)
    else HashedOff(s.Side(path[0]), path[1..], h) && Hashed(s.Side(!path[0]), h)
  }

  /** `path` leads from the top of `s` down through forks. */
  ghost predicate OnPath<V>(s: Shape<V>, path: seq<bool>) {
    path == [] || (s.Fork? && OnPath(s.Side(path[0]), path[1..]))
  }

  ghost function At<V>(s: Shape<V>, path: seq<bool>): Shape<V>
    requires OnPath(s, path)
  {
    if path == [] then s else At(s.Side(path[0]), path[1..])
  }

  /** `s` with the subtree at the end of `path` replaced. */
  ghost function Plug<V>(s: Shape<V>, path: seq<bool>, sub: Shape<V>): Shape<V>
    requires OnPath(s, path)
  {
    if path == [] then sub
    else if path[0] then Fork(s.node, s.left, Plug(s.right, path[1..], sub))
    else Fork(s.node, Plug(s.left, path[1..], sub), s.right)
  }

  /** The branches passed on the way, root first. */
  ghost function Chain<V>(s: Shape<V>, path: seq<bool>): (c: seq<BranchNode<V>>)
    requires OnPath(s, path)
    ensures |c| == |path|
  {
    if path == [] then [] else [s.node] + Chain(s.Side(path[0]), path[1..])
  }

  /** The branch whose slot the path ends in. */
  ghost function ParentOf<V>(s: Shape<V>, path: seq<bool>): BranchNode<V>
    requires OnPath(s, path) && path != []
  {
    Chain(s, path)[|path| - 1]
  }

  /** The path is the one a key takes. */
  ghost predicate Follows<V>(s: Shape<V>, path: seq<bool>, key: Key)
    requires OnPath(s, path)
  {
    path == [] ||
    (path[0] == Bit(key, s.node.Critical()) && Follows(s.Side(path[0]), path[1..], key))
  }

  /** All critical bits on the path are at most `nb`. */
  ghost predicate BitsUpTo<V>(s: Shape<V>, path: seq<bool>, nb: nat)
    requires OnPath(s, path)
  {
    path == [] || (s.node.Critical() <= nb && BitsUpTo(s.Side(path[0]), path[1..], nb))
  }

  lemma {:induction false} PathSnoc<V>(s: Shape<V>, path: seq<bool>, d: bool)
    requires OnPath(s, path) && At(s, path).Fork?
    ensures OnPath(s, path + [d])
    ensures At(s, path + [d]) == At(s, path).Side(d)
    ensures Chain(s, path + [d]) == Chain(s, path) + [At(s, path).node]
    ensures At(s, path).node in Nodes(s)
    ensures forall sub :: Plug(s, path + [d], sub) ==
              Plug(s, path, if d then Fork(At(s, path).node, At(s, path).left, sub)
                            else Fork(At(s, path).node, sub, At(s, path).right))
  {
    if path != [] {
      PathSnoc(s.Side(path[0]), path[1..], d);
      assert (path + [d])[1..] == path[1..] + [d];
    } else {
      assert (path + [d])[1..] == [];
    }
  }

  lemma {:induction false} FollowsSnoc<V>(s: Shape<V>, path: seq<bool>, key: Key, d: bool)
    requires OnPath(s, path) && At(s, path).Fork? && OnPath(s, path + [d])
    requires Follows(s, path, key) && d == Bit(key, At(s, path).node.Critical())
    ensures Follows(s, path + [d], key)
  {
    if path != [] {
      assert (path + [d])[1..] == path[1..] + [d];
      PathSnoc(s.Side(path[0]), path[1..], d);
      FollowsSnoc(s.Side(path[0]), path[1..], key, d);
    } else {
      assert (path + [d])[1..] == [];
    }
  }

  lemma {:induction false} BitsSnoc<V>(s: Shape<V>, path: seq<bool>, nb: nat, d: bool)
    requires OnPath(s, path) && At(s, path).Fork? && OnPath(s, path + [d])
    requires BitsUpTo(s, path, nb) && At(s, path).node.Critical() <= nb
    ensures BitsUpTo(s, path + [d], nb)
  {
    if path != [] {
      assert (path + [d])[1..] == path[1..] + [d];
      PathSnoc(s.Side(path[0]), path[1..], d);
      BitsSnoc(s.Side(path[0]), path[1..], nb, d);
    } else {
      assert (path + [d])[1..] == [];
    }
  }

  lemma {:induction false} SubNodes<V>(s: Shape<V>, path: seq<bool>)
    requires OnPath(s, path) && Distinct(s)
    ensures Distinct(At(s, path)) && Nodes(At(s, path)) <= Nodes(s)
    ensures forall n :: n in Chain(s, path) ==> n in Nodes(s) && n !in Nodes(At(s, path))
  {
    if path != [] {
      SubNodes(s.Side(path[0]), path[1..]);
    }
  }

  lemma {:induction false} SubLinked<V>(s: Shape<V>, path: seq<bool>, m: Links<V>)
    requires OnPath(s, path) && Linked(s, m)
    ensures Linked(At(s, path), m)
  {
    if path != [] {
      SubLinked(s.Side(path[0]), path[1..], m);
    }
  }

  lemma {:induction false} SubHashed<V>(s: Shape<V>, path: seq<bool>, h: Hashes<V>)
    requires OnPath(s, path) && Hashed(s, h)
    ensures Hashed(At(s, path), h)
  {
    if path != [] {
      SubHashed(s.Side(path[0]), path[1..], h);
    }
  }

  lemma {:induction false} LinkedFrame<V>(s: Shape<V>, m: Links<V>, m': Links<V>)
    requires Linked(s, m)
    requires forall n :: n in Nodes(s) && n in m ==> n in m' && m'[n] == m[n]
    ensures Linked(s, m')
  {
    if s.Fork? {
      LinkedFrame(s.left, m, m');
      LinkedFrame(s.right, m, m');
    }
  }

  /** Links hold in any set of nodes that has the shape's. */
  lemma LinkedIn<V>(s: Shape<V>, ns: set<BranchNode<V>>, more: set<BranchNode<V>>)
    requires Linked(s, LinksOf(ns)) && Nodes(s) <= more
    ensures Linked(s, LinksOf(more))
  {
    LinkedFrame(s, LinksOf(ns), LinksOf(more));
  }

  lemma {:induction false} HashedFrame<V>(s: Shape<V>, h: Hashes<V>, h': Hashes<V>)
    requires Hashed(s, h)
    requires forall n :: n in Nodes(s) && n in h ==> n in h' && h'[n] == h[n]
    ensures Hashed(s, h')
  {
    if s.Fork? {
      HashedFrame(s.left, h, h');
      HashedFrame(s.right, h, h');
    }
  }

  lemma {:induction false} HashedOffFrame<V>(s: Shape<V>, path: seq<bool>, h: Hashes<V>, h': Hashes<V>)
    requires OnPath(s, path) && HashedOff(s, path, h)
    requires forall n :: n in Nodes(s) && n in h ==> n in h' && h'[n] == h[n]
    ensures HashedOff(s, path, h')
  {
    if path == [] {
      HashedFrame(s, h, h');
    } else {
      HashedOffFrame(s.Side(path[0]), path[1..], h, h');
      HashedFrame(s.Side(!path[0]), h, h');
    }
  }

  /** The walk of a key that ends at a leaf ends at its best match. */
  lemma {:induction false} BestAlong<V>(s: Shape<V>, path: seq<bool>, key: Key)
    requires OnPath(s, path) && Follows(s, path, key)
    ensures Best(TreeOf(s), key) == Best(TreeOf(At(s, path)), key)
  {
    if path != [] {
      BestAlong(s.Side(path[0]), path[1..], key);
    }
  }

  /** Plugging the new branch in at the end of the insert walk is `InsertAt`. */
  lemma {:induction false} InsertAlong<V>(s: Shape<V>, path: seq<bool>, key: Key, e: Entry<V>, nb: nat, sub: Shape<V>)
    requires OnPath(s, path) && Follows(s, path, key) && BitsUpTo(s, path, nb)
    requires TreeOf(sub) == InsertAt(TreeOf(At(s, path)), key, e, nb)
    ensures TreeOf(Plug(s, path, sub)) == InsertAt(TreeOf(s), key, e, nb)
  {
    if path != [] {
      InsertAlong(s.Side(path[0]), path[1..], key, e, nb, sub);
    }
  }

  /** Plugging the sibling in for the parent is `Delete`. */
  lemma {:induction false} DeleteAlong<V>(s: Shape<V>, path: seq<bool>, key: Key, sub: Shape<V>)
    requires OnPath(s, path) && Follows(s, path, key)
    requires Delete(TreeOf(At(s, path)), key) == Some(TreeOf(sub))
    ensures Delete(TreeOf(s), key) == Some(TreeOf(Plug(s, path, sub)))
  {
    if path != [] {
      DeleteAlong(s.Side(path[0]), path[1..], key, sub);
    }
  }

  lemma {:induction false} PlugPath<V>(s: Shape<V>, path: seq<bool>, sub: Shape<V>)
    requires OnPath(s, path)
    ensures OnPath(Plug(s, path, sub), path)
    ensures At(Plug(s, path, sub), path) == sub
    ensures Chain(Plug(s, path, sub), path) == Chain(s, path)
    ensures Nodes(Plug(s, path, sub)) <= Nodes(s) + Nodes(sub)
    ensures path != [] ==> PtrOf(Plug(s, path, sub)) == PtrOf(s)
  {
    if path != [] {
      PlugPath(s.Side(path[0]), path[1..], sub);
    }
  }

  lemma {:induction false} PlugDistinct<V>(s: Shape<V>, path: seq<bool>, sub: Shape<V>)
    requires OnPath(s, path) && Distinct(s) && Distinct(sub)
    requires Nodes(sub) !! (Nodes(s) - Nodes(At(s, path)))
    ensures Distinct(Plug(s, path, sub))
  {
    if path != [] {
      var next := s.Side(path[0]);
      SubNodes(next, path[1..]);
      PlugPath(next, path[1..], sub);
      PlugDistinct(next, path[1..], sub);
    }
  }

  /** A fork relinked: one side replaced, the other as it was. */
  lemma Relink<V>(s: Shape<V>, d: bool, sub: Shape<V>, m: Links<V>, m': Links<V>)
    requires s.Fork? && Linked(s, m) && Linked(sub, m')
    requires s.node !in Nodes(s.Side(!d))
    requires forall n :: n in Nodes(s.Side(!d)) && n in m ==> n in m' && m'[n] == m[n]
    requires s.node in m' && m'[s.node] == if d then (m[s.node].0, PtrOf(sub)) else (PtrOf(sub), m[s.node].1)
    ensures Linked(Plug(s, [d], sub), m')
  {
    LinkedFrame(s.Side(!d), m, m');
    assert [d][1..] == [];
  }

  /** Writing one child slot splices a new subtree in: only the last branch of the path is written. */
  lemma {:induction false} Splice<V>(s: Shape<V>, path: seq<bool>, sub: Shape<V>, m: Links<V>, m': Links<V>)
    requires OnPath(s, path) && path != []
    requires Distinct(s) && Linked(s, m)
    requires Linked(sub, m')
    requires forall n :: n in Nodes(s) && n in m && n != ParentOf(s, path) ==> n in m' && m'[n] == m[n]
    requires ParentOf(s, path) in m && ParentOf(s, path) in m'
    requires m'[ParentOf(s, path)] == if path[|path| - 1] then (m[ParentOf(s, path)].0, PtrOf(sub))
                                      else (PtrOf(sub), m[ParentOf(s, path)].1)
    ensures Linked(Plug(s, path, sub), m')
  {
    var d, next := path[0], s.Side(path[0]);
    if |path| == 1 {
      assert path == [d];
      Relink(s, d, sub, m, m');
    } else {
      SubNodes(next, path[1..]);
      PlugPath(next, path[1..], sub);
      assert ParentOf(s, path) == ParentOf(next, path[1..]);
      assert ParentOf(next, path[1..]) in Chain(next, path[1..]);
      Splice(next, path[1..], sub, m, m');
      Relink(s, d, Plug(next, path[1..], sub), m, m');
    }
  }

  /** After the write, only the branches on the path may have a stale hash. */
  lemma {:induction false} SpliceHashes<V>(s: Shape<V>, path: seq<bool>, sub: Shape<V>, h: Hashes<V>)
    requires OnPath(s, path) && Hashed(s, h) && Hashed(sub, h)
    ensures OnPath(Plug(s, path, sub), path)
    ensures HashedOff(Plug(s, path, sub), path, h)
  {
    PlugPath(s, path, sub);
    if path != [] {
      PlugPath(s.Side(path[0]), path[1..], sub);
      SpliceHashes(s.Side(path[0]), path[1..], sub, h);
    }
  }

  lemma {:induction false} PathWithinHeight<V>(s: Shape<V>, path: seq<bool>)
    requires OnPath(s, path)
    ensures |path| <= Height(TreeOf(s))
  {
    if path != [] {
      PathWithinHeight(s.Side(path[0]), path[1..]);
    }
  }

  /** Every walk from the root passes at most 8 branches for each byte of the keys. */
  lemma WalkBound<V>(s: Shape<V>, path: seq<bool>, n: nat)
    requires OnPath(s, path) && Wf(TreeOf(s))
    requires forall k :: k in Keys(TreeOf(s)) ==> |k| <= n
    ensures |path| <= 8 * n
  {
    PathWithinHeight(s, path);
    HeightBound(TreeOf(s), n);
  }

  /** The same when the new subtree's top branch has no hash yet. */
  lemma {:induction false} SpliceStale<V>(s: Shape<V>, path: seq<bool>, sub: Shape<V>, d: bool, h: Hashes<V>)
    requires OnPath(s, path) && Hashed(s, h)
    requires sub.Fork? && Hashed(sub.left, h) && Hashed(sub.right, h)
    ensures OnPath(Plug(s, path, sub), path + [d])
    ensures HashedOff(Plug(s, path, sub), path + [d], h)
  {
    if path != [] {
      assert (path + [d])[1..] == path[1..] + [d];
      SpliceStale(s.Side(path[0]), path[1..], sub, d, h);
    } else {
      assert (path + [d])[1..] == [];
    }
  }

  /** Recomputing the deepest stale branch from its children shortens the stale path by one. */
  lemma {:induction false} Rehash<V>(s: Shape<V>, path: seq<bool>, d: bool, h: Hashes<V>, h': Hashes<V>)
    requires OnPath(s, path) && At(s, path).Fork? && OnPath(s, path + [d])
    requires Distinct(s) && HashedOff(s, path + [d], h)
    requires At(s, path).node in h' && h'[At(s, path).node] == XorOf(TreeOf(At(s, path)))
    requires forall n :: n in Nodes(s) && n in h && n != At(s, path).node ==> n in h' && h'[n] == h[n]
    ensures HashedOff(s, path, h')
  {
    if path == [] {
      assert (path + [d])[1..] == [];
      HashedFrame(s.left, h, h');
      HashedFrame(s.right, h, h');
    } else {
      assert (path + [d])[1..] == path[1..] + [d];
      PathSnoc(s.Side(path[0]), path[1..], d);
      Rehash(s.Side(path[0]), path[1..], d, h, h');
      HashedFrame(s.Side(!path[0]), h, h');
    }
  }

  /** On the way there its two children are up to date. */
  lemma {:induction false} ChildrenHashed<V>(s: Shape<V>, path: seq<bool>, d: bool, h: Hashes<V>)
    requires OnPath(s, path) && At(s, path).Fork? && OnPath(s, path + [d])
    requires HashedOff(s, path + [d], h)
    ensures Hashed(At(s, path).left, h) && Hashed(At(s, path).right, h)
  {
    if path == [] {
      assert (path + [d])[1..] == [];
    } else {
      assert (path + [d])[1..] == path[1..] + [d];
      ChildrenHashed(s.Side(path[0]), path[1..], d, h);
    }
  }
}
