/** The Merkle tree's points, and the `diff` answer to a replica's point. */
module MerkleDiff {
  import opened Bits
  import opened CritTree
  import opened MerkleHash
  import opened Shapes
  import opened CritBitTree
  import opened PrefixQuery
  import opened Queries
  import opened Options

  /** A node as the replicas name it: its hash, a key below it, and how many of the key's bits count. */
  datatype Location = Location(hash: Hash, key: Key, keybits: nat)

  const NO_KEYBITS := 0xFFFF

  function ZeroKey(n: nat): (k: Key)
    ensures |k| == n
  {
    seq(n, _ => 0)
  }

  function NullLocation(n: nat): Location {
    Location(0, ZeroKey(n), NO_KEYBITS)
  }

  const DE_BRUIJN: seq<nat> := [
    0, 1, 28, 2, 29, 14, 24, 3, 30, 22, 20, 15, 25, 17, 4, 8,
    31, 27, 13, 23, 21, 19, 16, 7, 26, 12, 18, 6, 11, 5, 10, 9]

  /** The index of the lowest set bit of a non-zero byte, by multiplication and table. */
  function TrailingZeros(x: bv8): nat {
    DE_BRUIJN[((x & (0 - x)) as int * 0x077CB531 % 0x1_0000_0000) / 0x800_0000]
  }

  /** `keybits`, in 16 bits. */
  function KeyBits(byte: nat, bit: bv8): nat {
    (byte * 8 + 8 - TrailingZeros(bit)) % 0x1_0000
  }

  lemma TrailingZerosOfMask(p: nat)
    requires p < 8
    ensures TrailingZeros(Mask(p)) == 7 - p
  {
  }

  /** `keybits(byte, otherbits ^ 0xFF) - 1`, which every caller uses, is the critical bit's index. */
  lemma KeyBitsIsIndex(byte: nat, otherbits: OtherBits)
    requires Index(byte, otherbits) < NO_KEYBITS
    ensures KeyBits(byte, otherbits ^ 0xFF) - 1 == Index(byte, otherbits)
  {
    var p := PosOf(otherbits);
    InvertOther(otherbits);
    TrailingZerosOfMask(p);
  }

  lemma InvertOther(b: OtherBits)
    ensures b ^ 0xFF == Mask(PosOf(b))
  {
  }

  /** The walk for a point: `keybits` bits of its key, as a byte count and a mask for the last byte. */
  function PointBytes(keybits: nat): (r: (nat, nat))
    ensures r.0 <= 8
    ensures PrefixBits(r.0, r.1) == keybits
  {
    if keybits % 8 == 0 then (0, keybits / 8) else (8 - keybits % 8, keybits / 8 + 1)
  }

  datatype DiffResult = DiffResult(points: seq<Location>, missing: bool) {
    predicate NoDifference() { points == [] }
    predicate Traverse() { |points| >= 2 }
    predicate NeedRange(n: nat) { missing && |points| == 1 && points[0] == NullLocation(n) }
    predicate NeedPartialRange(n: nat) { missing && |points| == 1 && points[0] != NullLocation(n) }
    predicate NeedExchange() { !missing && |points| == 1 }
  }

  /** `getPoint`: a branch is named by any key below it and its critical bit, a leaf by its whole key. */
  function PointOf<V>(n: nat, key: Key, t: Tree<Entry<V>>): Location {
    match t
    case Branch(b, _, _) => Location(XorOf(t), key, b)
    case Leaf(k, e) => Location(e.hash, k, 8 * n)
  }

  /** `top`. */
  function TopOf<V>(n: nat, o: Option<Tree<Entry<V>>>): Location {
    match o
    case None => NullLocation(n)
    case Some(t) => PointOf(n, ZeroKey(n), Nearest(t, ZeroKey(n), 0))
  }

  /** `diff`. */
  function DiffOf<V>(n: nat, o: Option<Tree<Entry<V>>>, point: Location): DiffResult {
    match o
    case None => DiffResult([NullLocation(n)], true)
    case Some(t) =>
      var s := Nearest(t, point.key, point.keybits);
      if point.hash == XorOf(s) then DiffResult([], false)
      else if s.Leaf? then
        var current := Location(XorOf(s), s.key, 8 * n);
        DiffResult([current], current.key != point.key || current.keybits != point.keybits)
      else
        FirstIsLeaf(s);
        FirstIsLeaf(s.right);
        if s.bit > point.keybits then DiffResult([Location(XorOf(s), First(s).key, s.bit)], true)
        else DiffResult([PointOf(n, First(s).key, s.left), PointOf(n, First(s.right).key, s.right),
                         point.(hash := XorOf(s))], false)
  }

  /** Whatever key below a node it is given, a node's point carries a key below it, the node's hash and the bits that
      lead to it; and a tree's top names its root. */
  lemma PointIs<V>(n: nat, t: Tree<Entry<V>>, key: Key)
    requires Wf(t) && KeysSized(n, t)
    ensures
      var p := PointOf(n, key, t);
      && p.hash == XorOf(t) && p.keybits == (if t.Branch? then t.bit else 8 * n)
      && (key in Keys(t) ==> p.key in Keys(t)) && (t.Branch? ==> p.key == key)
    ensures
      var top := TopOf(n, Some(t));
      && top.hash == XorOf(t) && top.keybits == (if t.Branch? then t.bit else 8 * n)
      && Nearest(t, top.key, top.keybits) == t
  {
  }

  ghost predicate KeysSized<V>(n: nat, t: Tree<V>) {
    forall k :: k in Keys(t) ==> |k| == n
  }

  /** `s` is `t` or one of the subtrees below it. */
  ghost predicate Within<V>(s: Tree<V>, t: Tree<V>) {
    s == t || (t.Branch? && (Within(s, t.left) || Within(s, t.right)))
  }

  lemma {:induction false} WithinKeys<V>(s: Tree<V>, t: Tree<V>)
    requires Within(s, t) && Wf(t)
    ensures Wf(s) && Keys(s) <= Keys(t)
    ensures s != t && s.Branch? ==> t.Branch? && t.bit < s.bit
  {
    if s != t {
      if Within(s, t.left) { WithinKeys(s, t.left); } else { WithinKeys(s, t.right); }
    }
  }

  lemma {:induction false} NearestWithin<V>(t: Tree<V>, key: Key, bits: nat)
    ensures Within(Nearest(t, key, bits), t)
  {
    if t.Branch? && t.bit < bits {
      NearestWithin(t.Child(Bit(key, t.bit)), key, bits);
    }
  }

  /** A node's point leads back to that node, whichever key below it the point carries. */
  lemma {:induction false} PointResolves<V>(n: nat, t: Tree<V>, s: Tree<V>, key: Key)
    requires Wf(t) && KeysSized(n, t) && Within(s, t) && key in Keys(s)
    ensures Nearest(t, key, if s.Branch? then s.bit else 8 * n) == s
  {
    WithinKeys(s, t);
    HeightBound(t, n);
    if s != t {
      var c := if Within(s, t.left) then t.left else t.right;
      WithinKeys(s, c);
      PointResolves(n, c, s, key);
    }
  }

  /** The exactness of one step of the descent. When `diff` answers with a traverse, the branch it
      found has the point's own keybits; the two child points lead back to exactly its two children;
      these partition its leaves, their hashes combine to its hash, and their keybits are larger. Each child is named
      by a key of its own and by exactly its critical bit, or all bits of a leaf's key. */
  lemma DescentExact<V>(n: nat, t: Tree<Entry<V>>, point: Location)
    requires Wf(t) && KeysSized(n, t)
    requires DiffOf(n, Some(t), point).Traverse()
    ensures Nearest(t, point.key, point.keybits).Branch?
    ensures var r := DiffOf(n, Some(t), point).points; var s := Nearest(t, point.key, point.keybits);
      && |r| == 3
      && s.bit == point.keybits
      && Nearest(t, r[0].key, r[0].keybits) == s.left
      && Nearest(t, r[1].key, r[1].keybits) == s.right
      && r[0].hash == XorOf(s.left) && r[1].hash == XorOf(s.right)
      && Keys(s) == Keys(s.left) + Keys(s.right) && Keys(s.left) !! Keys(s.right)
      && Mix(r[0].hash, r[1].hash) == XorOf(s)
      && point.keybits < r[0].keybits <= 8 * n
      && point.keybits < r[1].keybits <= 8 * n
      && r[0].key in Keys(s.left) && r[0].keybits == (if s.left.Branch? then s.left.bit else 8 * n)
      && r[1].key in Keys(s.right) && r[1].keybits == (if s.right.Branch? then s.right.bit else 8 * n)
      && r[2].hash == XorOf(s) && r[2].key == point.key && r[2].keybits == point.keybits
  {
    var s := Nearest(t, point.key, point.keybits);
    NearestHoldsPrefix(t, point.key, point.keybits);
    NearestWithin(t, point.key, point.keybits);
    FirstIsLeaf(s);
    FirstIsLeaf(s.left);
    FirstIsLeaf(s.right);
    ChildrenWithin(s, t);
    PointResolves(n, t, s.left, First(s.left).key);
    PointResolves(n, t, s.right, First(s.right).key);
    HeightBound(s, n);
    HeightBound(s.left, n);
    HeightBound(s.right, n);
  }

  lemma {:induction false} ChildrenWithin<V>(s: Tree<V>, t: Tree<V>)
    requires Within(s, t) && s.Branch?
    ensures Within(s.left, t) && Within(s.right, t)
  {
    if s != t {
      if Within(s, t.left) { ChildrenWithin(s, t.left); } else { ChildrenWithin(s, t.right); }
    }
  }

  /** One question of a conversation: the tree that answered (replicas may change between questions). */
  datatype Round<V> = Round(tree: Tree<Entry<V>>, point: Location)

  /** Each question after the first asks about one of the two children the last answer named. */
  ghost predicate Conversation<V>(n: nat, rounds: seq<Round<V>>) {
    && (forall i :: 0 <= i < |rounds| ==> Wf(rounds[i].tree) && KeysSized(n, rounds[i].tree))
    && (forall i, j :: 0 <= i && j == i + 1 < |rounds| ==> Continues(n, rounds[i], rounds[j].point))
  }

  ghost predicate Continues<V>(n: nat, round: Round<V>, next: Location) {
    var r := DiffOf(n, Some(round.tree), round.point);
    r.Traverse() && (next == r.points[0] || next == r.points[1])
  }

  lemma {:induction false} KeybitsGrow<V>(n: nat, rounds: seq<Round<V>>, i: nat)
    requires Conversation(n, rounds) && i < |rounds|
    ensures rounds[i].point.keybits >= i
    ensures i > 0 ==> rounds[i].point.keybits <= 8 * n
  {
    if i > 0 {
      KeybitsGrow(n, rounds, i - 1);
      assert Continues(n, rounds[i - 1], rounds[i].point);
      DescentExact(n, rounds[i - 1].tree, rounds[i - 1].point);
    }
  }

  /** Every conversation ends within MAX_KEYBITS + 1 rounds. */
  lemma ConversationEnds<V>(n: nat, rounds: seq<Round<V>>)
    requires Conversation(n, rounds)
    ensures |rounds| <= 8 * n + 1
  {
    if |rounds| > 1 {
      KeybitsGrow(n, rounds, |rounds| - 1);
    }
  }

  /** A point whose keybits do not pass the root's critical bit is compared with the root. */
  lemma TopComparesRoot<V>(n: nat, a: Tree<Entry<V>>, b: Tree<Entry<V>>)
    requires a.Branch? ==> TopOf(n, Some(b)).keybits <= a.bit
    requires DiffOf(n, Some(a), TopOf(n, Some(b))).NoDifference()
    ensures XorOf(a) == XorOf(b)
  {
  }

  /** Two non-empty replicas that both accept each other's top have equal root hashes. */
  lemma TopsAgree<V>(n: nat, a: Tree<Entry<V>>, b: Tree<Entry<V>>)
    requires Wf(a) && KeysSized(n, a) && Wf(b) && KeysSized(n, b)
    requires DiffOf(n, Some(a), TopOf(n, Some(b))).NoDifference()
    requires DiffOf(n, Some(b), TopOf(n, Some(a))).NoDifference()
    ensures XorOf(a) == XorOf(b)
  {
    HeightBound(a, n);
    HeightBound(b, n);
    if a.Leaf? || TopOf(n, Some(b)).keybits <= a.bit {
      TopComparesRoot(n, a, b);
    } else {
      TopComparesRoot(n, b, a);
    }
  }

  lemma {:induction false} NearestAlike<V, W>(a: Tree<Entry<V>>, b: Tree<Entry<W>>, key: Key, bits: nat)
    requires Alike(a, b)
    ensures Alike(Nearest(a, key, bits), Nearest(b, key, bits))
  {
    if a.Branch? && a.bit < bits {
      NearestAlike(a.Child(Bit(key, a.bit)), b.Child(Bit(key, a.bit)), key, bits);
    }
  }

  lemma {:induction false} FirstAlike<V, W>(a: Tree<Entry<V>>, b: Tree<Entry<W>>)
    requires Alike(a, b)
    ensures First(a).Leaf? && First(b).Leaf? && First(a).key == First(b).key
  {
    if a.Branch? {
      FirstAlike(a.left, b.left);
    }
  }

  /** `diff` and `top` see keys and hashes only. */
  lemma DiffAlike<V, W>(n: nat, a: Tree<Entry<V>>, b: Tree<Entry<W>>, point: Location)
    requires Alike(a, b)
    ensures DiffOf(n, Some(a), point) == DiffOf(n, Some(b), point)
    ensures TopOf(n, Some(a)) == TopOf(n, Some(b))
  {
    NearestAlike(a, b, ZeroKey(n), 0);
    NearestAlike(a, b, point.key, point.keybits);
    var s, s' := Nearest(a, point.key, point.keybits), Nearest(b, point.key, point.keybits);
    FirstAlike(s, s');
    if s.Branch? {
      FirstAlike(s.right, s'.right);
    }
  }

  lemma OwnPointsAgree<V>(n: nat, a: Tree<Entry<V>>, point: Location)
    requires Wf(a) && KeysSized(n, a)
    ensures DiffOf(n, Some(a), TopOf(n, Some(a))).NoDifference()
    ensures var r := DiffOf(n, Some(a), point);
      r.Traverse() ==> DiffOf(n, Some(a), r.points[0]).NoDifference() && DiffOf(n, Some(a), r.points[1]).NoDifference()
  {
    if a.Branch? {
      HeightBound(a, n);
    }
    if DiffOf(n, Some(a), point).Traverse() {
      DescentExact(n, a, point);
    }
  }

  /** Replicas holding the same keys with the same hashes answer every point alike, and report no difference:
      not for each other's top, and not for any child point a traverse returns. */
  lemma EqualReplicasAgree<V, W>(n: nat, a: Tree<Entry<V>>, b: Tree<Entry<W>>, point: Location)
    requires Wf(a) && KeysSized(n, a) && Wf(b) && KeyHashes(a) == KeyHashes(b)
    ensures DiffOf(n, Some(b), point) == DiffOf(n, Some(a), point)
    ensures DiffOf(n, Some(b), TopOf(n, Some(a))).NoDifference()
    ensures var r := DiffOf(n, Some(a), point);
      r.Traverse() ==> DiffOf(n, Some(b), r.points[0]).NoDifference() && DiffOf(n, Some(b), r.points[1]).NoDifference()
  {
    SameItemsSameHashes(a, b);
    OwnPointsAgree(n, a, point);
    DiffAlike(n, a, b, point);
    DiffAlike(n, a, b, TopOf(n, Some(a)));
    var r := DiffOf(n, Some(a), point);
    if r.Traverse() {
      DiffAlike(n, a, b, r.points[0]);
      DiffAlike(n, a, b, r.points[1]);
    }
  }

  /** What each of `diff`'s answers means. Exactly one of the five kinds comes back: a range is asked for only
      by an empty tree; no difference means equal hashes at the node under the point's prefix; an exchange, one
      differing entry under the very key asked for; a traverse, a branch exactly where the point says; and a
      partial range, anything deeper. The node is named by a key of its own, which leads back to it, its hash and its
      critical bit, or all bits of a leaf's key. */
  lemma DiffAnswers<V>(n: nat, o: Option<Tree<Entry<V>>>, point: Location)
    requires o.Some? ==> Wf(o.value) && KeysSized(n, o.value)
    requires 8 * n < NO_KEYBITS
    ensures DiffOf(n, o, point).NeedRange(n) <==> o.None?
    ensures var r := DiffOf(n, o, point); r.missing <==> r.NeedRange(n) || r.NeedPartialRange(n)
    ensures o.None? ==> var r := DiffOf(n, o, point);
      r.missing && |r.points| == 1 && r.points[0].hash == 0 && r.points[0].keybits == 0xFFFF
      && |r.points[0].key| == n && forall i :: 0 <= i < n ==> r.points[0].key[i] == 0
    ensures o.None? ==> var r := DiffOf(n, o, point); !r.NoDifference() && !r.Traverse() && !r.NeedExchange()
    ensures o.Some? ==>
      var r, s := DiffOf(n, o, point), Nearest(o.value, point.key, point.keybits);
      var same := XorOf(s) == point.hash;
      && (r.NoDifference() <==> same)
      && (r.NeedExchange() <==> !same && s.Leaf? && s.key == point.key && point.keybits == 8 * n)
      && (r.Traverse() <==> !same && s.Branch? && s.bit == point.keybits)
      && (r.NeedPartialRange(n) <==>
            !same && if s.Leaf? then s.key != point.key || point.keybits != 8 * n else s.bit > point.keybits)
      && (r.NeedExchange() || r.NeedPartialRange(n) ==>
            && r.points[0].hash == XorOf(s) && Nearest(o.value, r.points[0].key, r.points[0].keybits) == s
            && r.points[0].key in Keys(s) && r.points[0].keybits == if s.Branch? then s.bit else 8 * n)
  {
    if o.Some? {
      var t := o.value;
      var s := Nearest(t, point.key, point.keybits);
      NearestHoldsPrefix(t, point.key, point.keybits);
      NearestWithin(t, point.key, point.keybits);
      HeightBound(s, n);
      FirstIsLeaf(s);
      PointResolves(n, t, s, First(s).key);
    }
  }

  /** What the tree's key type must be for 16-bit keybits to hold every bit count. */
  predicate SizedTree(kind: Kind) {
    kind.Fixed? && 8 * kind.size < NO_KEYBITS
  }

  method HashLookup<V>(tree: CritBitTree<V>, key: Key, keybits: nat) returns (found: bool, hash: Hash)
    requires tree.Valid() && SizedTree(tree.kind) && |key| == tree.kind.size
    ensures tree.Model().None? ==> !found && hash == 0
    ensures tree.Model().Some? ==> hash == XorOf(Nearest(tree.Model().value, key, keybits))
    ensures tree.Model().Some? ==> (found <==> Nearest(tree.Model().value, key, keybits).Branch?)
  {
    var pb := PointBytes(keybits);
    var node, s := NearestSubtree(tree, key, pb.0, pb.1);
    if node.Null? {
      return false, 0;
    }
    HashReads(s.value, tree.nodes);
    hash := GetHash(node);
    found := node.ToBranch?;
  }

  method GetPoint<V>(tree: CritBitTree<V>, key: Key, node: Ptr<V>, ghost s: Shape<V>) returns (p: Location)
    requires SizedTree(tree.kind) && Inside(tree, node, s)
    requires Wf(TreeOf(s)) && KeysSized(tree.kind.size, TreeOf(s))
    ensures p == PointOf(tree.kind.size, key, TreeOf(s))
  {
    HeightBound(TreeOf(s), tree.kind.size);
    HashReads(s, tree.nodes);
    if node.ToBranch? {
      var b := node.branch;
      KeyBitsIsIndex(b.byte, b.otherbits);
      p := Location(b.hash, key, KeyBits(b.byte, b.otherbits ^ 0xFF) - 1);
    } else {
      p := Location(node.leaf.entry.hash, node.leaf.key, 8 * tree.kind.size);
    }
  }

  method Top<V>(tree: CritBitTree<V>) returns (p: Location)
    requires tree.Valid() && SizedTree(tree.kind)
    ensures p == TopOf(tree.kind.size, tree.Model())
  {
    var n := tree.kind.size;
    var node, s := NearestSubtree(tree, ZeroKey(n), 0, 0);
    if node.Null? {
      return NullLocation(n);
    }
    NearestHoldsPrefix(tree.Model().value, ZeroKey(n), 0);
    p := GetPoint(tree, ZeroKey(n), node, s.value);
  }

  method Diff<V>(tree: CritBitTree<V>, point: Location) returns (r: DiffResult)
    requires tree.Valid() && SizedTree(tree.kind) && |point.key| == tree.kind.size
    ensures r == DiffOf(tree.kind.size, tree.Model(), point)
  {
    hide Linked, Hashed, Distinct, Nodes, Bit, BitOf, Wf, XorOf, LinksOf, HashesOf, Mix, TrailingZeros;
    var n := tree.kind.size;
    if tree.root.Null? {
      return DiffResult([NullLocation(n)], true);
    }
    var pb := PointBytes(point.keybits);
    var nodep, s := NearestSubtree(tree, point.key, pb.0, pb.1);
    ghost var t := TreeOf(s.value);
    NearestHoldsPrefix(tree.Model().value, point.key, point.keybits);
    HeightBound(t, n);
    HashReads(s.value, tree.nodes);
    var myhash := GetHash(nodep);
    if point.hash == myhash {
      return DiffResult([], false);
    }
    if nodep.ToLeaf? {
      var current := Location(myhash, nodep.leaf.key, 8 * n);
      return DiffResult([current], current.key != point.key || current.keybits != point.keybits);
    }
    var leftLeaf := Begin(tree, nodep, s.value);
    var branch := nodep.branch;
    KeyBitsIsIndex(branch.byte, branch.otherbits);
    var branchKeybits := KeyBits(branch.byte, branch.otherbits ^ 0xFF) - 1;
    if branchKeybits > point.keybits {
      return DiffResult([Location(branch.hash, leftLeaf.key, branchKeybits)], true);
    }
    var left, right := ChildPoints(tree, nodep, s.value, leftLeaf);
    r := DiffResult([left, right, point.(hash := myhash)], false);
  }

  /** The points of a branch's two children. */
  method ChildPoints<V>(tree: CritBitTree<V>, node: Ptr<V>, ghost s: Shape<V>, leftLeaf: LeafNode<V>)
    returns (left: Location, right: Location)
    requires SizedTree(tree.kind) && Inside(tree, node, s) && s.Fork?
    requires Wf(TreeOf(s)) && KeysSized(tree.kind.size, TreeOf(s))
    ensures First(TreeOf(s).right).Leaf?
    ensures left == PointOf(tree.kind.size, leftLeaf.key, TreeOf(s).left)
    ensures right == PointOf(tree.kind.size, First(TreeOf(s).right).key, TreeOf(s).right)
  {
    StepDown(s, LinksOf(tree.nodes), false);
    StepDown(s, LinksOf(tree.nodes), true);
    left := GetPoint(tree, leftLeaf.key, node.branch.child0, s.left);
    var rightLeaf := Begin(tree, node.branch.child1, s.right);
    right := GetPoint(tree, rightLeaf.key, node.branch.child1, s.right);
  }
}
