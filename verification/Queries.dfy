/** The read-only walks of the tree: subtrees by bit prefix, first and last leaves, enumeration. */
module Queries {
  import opened Bits
  import opened CriticalBit
  import opened CritTree
  import opened Shapes
  import opened CritBitTree
  import opened PrefixQuery
  import opened Options

  /** A pointer into the tree, with the shape it leads to; the hashes below it are up to date. */
  ghost predicate Inside<V>(tree: CritBitTree<V>, p: Ptr<V>, s: Shape<V>)
    reads tree, tree.nodes
  {
    p == PtrOf(s) && Linked(s, LinksOf(tree.nodes)) && Hashed(s, HashesOf(tree.nodes))
  }

  lemma InsideChild<V>(tree: CritBitTree<V>, p: Ptr<V>, s: Shape<V>, d: bool)
    requires Inside(tree, p, s) && s.Fork?
    ensures p == ToBranch(s.node) && Inside(tree, s.node.Child(d), s.Side(d))
  {
    StepDown(s, LinksOf(tree.nodes), d);
  }

  lemma InsideKind<V>(tree: CritBitTree<V>, p: Ptr<V>, s: Shape<V>)
    requires Inside(tree, p, s)
    ensures p == if s.Fork? then ToBranch(s.node) else ToLeaf(s.leaf)
  {
  }

  /** What a caller may pass as a prefix: a whole key, or bytes of a C string up to its terminator. */
  predicate PrefixOk(kind: Kind, prefix: Key, keylen: nat) {
    OfKind(kind, prefix) && (kind.CString? ==> keylen <= |prefix| + 1)
  }

  method NearestSubtree<V>(tree: CritBitTree<V>, prefix: Key, j: nat, keylen: nat)
    returns (top: Ptr<V>, ghost s: Option<Shape<V>>)
    requires tree.Valid() && j <= 8
    requires PrefixOk(tree.kind, prefix, keylen)
    ensures top == Null <==> tree.Model() == None
    ensures s.Some? <==> tree.Model().Some?
    ensures s.Some? ==> Inside(tree, top, s.value)
    ensures s.Some? ==> TreeOf(s.value) == Nearest(tree.Model().value, prefix, PrefixBits(j, keylen))
  {
    top := tree.root;
    if top.Null? {
      return top, None;
    }
    var bitmask := LowMask(j);
    ghost var cur := tree.shape.value;
    while top.ToBranch?
      invariant Inside(tree, top, cur)
      invariant Nearest(TreeOf(cur), prefix, PrefixBits(j, keylen)) ==
                Nearest(tree.Model().value, prefix, PrefixBits(j, keylen))
      decreases cur
    {
      var q := top.branch;
      StopsAtPrefix(q.byte, q.otherbits, j, keylen);
      if StopsAt(q.byte, q.otherbits, bitmask, keylen) {
        break;
      }
      var d := CalculateDirection(q.byte, q.otherbits, prefix);
      StepDown(cur, LinksOf(tree.nodes), d);
      top := q.Child(d);
      cur := cur.Side(d);
    }
    return top, Some(cur);
  }

  /** `begin(node)`: the leftmost leaf. */
  method Begin<V>(tree: CritBitTree<V>, node: Ptr<V>, ghost s: Shape<V>) returns (leaf: LeafNode<V>)
    requires Inside(tree, node, s)
    ensures Leaf(leaf.key, leaf.entry) == First(TreeOf(s)) && leaf in Tips(s)
  {
    var p := node;
    ghost var cur := s;
    while p.ToBranch?
      invariant Inside(tree, p, cur) && First(TreeOf(cur)) == First(TreeOf(s))
      invariant forall l :: l in Tips(cur) ==> l in Tips(s)
      decreases cur
    {
      StepDown(cur, LinksOf(tree.nodes), false);
      p := p.branch.Child(false);
      cur := cur.left;
    }
    leaf := p.leaf;
  }

  /** `end(node)`: the rightmost leaf. */
  method End<V>(tree: CritBitTree<V>, node: Ptr<V>, ghost s: Shape<V>) returns (leaf: LeafNode<V>)
    requires Inside(tree, node, s)
    ensures Leaf(leaf.key, leaf.entry) == Last(TreeOf(s)) && leaf in Tips(s)
  {
    var p := node;
    ghost var cur := s;
    while p.ToBranch?
      invariant Inside(tree, p, cur) && Last(TreeOf(cur)) == Last(TreeOf(s))
      invariant forall l :: l in Tips(cur) ==> l in Tips(s)
      decreases cur
    {
      StepDown(cur, LinksOf(tree.nodes), true);
      p := p.branch.Child(true);
      cur := cur.right;
    }
    leaf := p.leaf;
  }

  /** `subtree`: null when no stored key has the prefix, otherwise the node above exactly those that have. */
  method Subtree<V>(tree: CritBitTree<V>, prefix: Key, j: nat, keylen: nat)
    returns (top: Ptr<V>, ghost s: Option<Shape<V>>)
    requires tree.Valid() && j <= 8 && (tree.kind.Fixed? ==> keylen <= |prefix|)
    requires PrefixOk(tree.kind, prefix, keylen)
    ensures top == Null <==> s.None?
    ensures top == Null <==> forall k :: k in KeysOf(tree.Model()) ==> !AgreeBelow(k, prefix, PrefixBits(j, keylen))
    ensures s.Some? ==> Inside(tree, top, s.value) && tree.Model().Some?
    ensures s.Some? ==> TreeOf(s.value) == Nearest(tree.Model().value, prefix, PrefixBits(j, keylen))
    ensures s.Some? ==>
              Keys(TreeOf(s.value)) == set k | k in KeysOf(tree.Model()) && AgreeBelow(k, prefix, PrefixBits(j, keylen))
  {
    hide Inside, AgreeBelow, Wf, Nearest, PrefixBits, Tips, Linked, Hashed, Distinct, Nodes;
    top, s := NearestSubtree(tree, prefix, j, keylen);
    if top.Null? {
      return Null, None;
    }
    ghost var t := TreeOf(s.value);
    var leaf := Begin(tree, top, s.value);
    FirstIsLeaf(t);
    NearestHoldsPrefix(tree.Model().value, prefix, PrefixBits(j, keylen));
    PrefixAll(tree.Model().value, prefix, PrefixBits(j, keylen), leaf.key);
    AgreeSym(prefix, leaf.key, PrefixBits(j, keylen));
    assert leaf.key in KeysOf(tree.Model());
    var fits := BytesFit(tree.kind, prefix, leaf.key, j, keylen);
    if !fits {
      return Null, None;
    }
  }

  /** The check of `subtree` on one leaf. */
  method BytesFit(kind: Kind, prefix: Key, leaf: Key, j: nat, keylen: nat) returns (fits: bool)
    requires j <= 8 && PrefixOk(kind, prefix, keylen) && (kind.Fixed? ==> keylen <= |prefix|) && OfKind(kind, leaf)
    ensures fits <==> AgreeBelow(prefix, leaf, PrefixBits(j, keylen))
  {
    BytesMatchIsAgreement(prefix, leaf, j, keylen);
    if keylen > 0 {
      var i := 0;
      while i < keylen - 1
        invariant 0 <= i <= keylen - 1
        invariant i <= |leaf|
        invariant forall m: nat :: m < i ==> ByteAt(prefix, m) == ByteAt(leaf, m)
      {
        if Read(kind, prefix, i) != Read(kind, leaf, i) {
          return false;
        }
        ReadOn(kind, prefix, leaf, i);
        i := i + 1;
      }
      if (Read(kind, prefix, keylen - 1) ^ Read(kind, leaf, keylen - 1)) & !LowMask(j) != 0 {
        return false;
      }
    }
    return true;
  }

  lemma AgreeSym(a: Key, b: Key, n: nat)
    ensures AgreeBelow(a, b, n) <==> AgreeBelow(b, a, n)
  {
  }

  /** Two strings equal in a byte inside one of them both continue past it. */
  lemma ReadOn(kind: Kind, a: Key, b: Key, i: nat)
    requires OfKind(kind, a) && OfKind(kind, b) && i < |a| && i <= |b|
    requires ByteAt(a, i) == ByteAt(b, i)
    ensures i < |b|
  {
    if kind.CString? {
      assert a[i] in a;
    }
  }
}
