/** The crit-bit tree as a value: its shape invariant, its walks, insertion and removal, the map
    it stands for, and the fact that the map alone determines the tree. */
module CritTree {
  import opened Bits
  import opened CriticalBit
  import opened Options

  datatype Tree<+V> =
    | Leaf(key: Key, val: V)
    | Branch(bit: nat, left: Tree<V>, right: Tree<V>)
  {
    /** The child on side `d`. */
    function Child(d: bool): Tree<V>
      requires Branch?
    {
      if d then right else left
    }
  }

  ghost function Keys<V>(t: Tree<V>): set<Key> {
    match t
    case Leaf(k, _) => {k}
    case Branch(_, l, r) => Keys(l) + Keys(r)
  }

  /** The finite map a tree stands for. */
  ghost function Items<V>(t: Tree<V>): map<Key, V> {
    match t
    case Leaf(k, v) => map[k := v]
    case Branch(_, l, r) => Items(l) + Items(r)
  }

  /** The crit-bit invariant: at every branch the leaves agree on all bits before its critical bit,
      child 0 holds those with a 0 there and child 1 those with a 1, and critical bits grow downwards. */
  ghost predicate Wf<V>(t: Tree<V>) {
    match t
    case Leaf(_, _) => true
    case Branch(b, l, r) =>
      && Wf(l) && Wf(r)
      && (forall k :: k in Keys(l) ==> !Bit(k, b))
      && (forall k :: k in Keys(r) ==> Bit(k, b))
      && (forall k, k' :: k in Keys(t) && k' in Keys(t) ==> AgreeBelow(k, k', b))
      && (l.Branch? ==> b < l.bit)
      && (r.Branch? ==> b < r.bit)
  }

  lemma {:induction false} HasKey<V>(t: Tree<V>) returns (k: Key)
    ensures k in Keys(t)
  {
    match t {
      case Leaf(key, _) => k := key;
      case Branch(_, l, _) => k := HasKey(l);
    }
  }

  lemma {:induction false} ItemKeys<V>(t: Tree<V>)
    ensures Items(t).Keys == Keys(t)
  {
    if t.Branch? {
      ItemKeys(t.left);
      ItemKeys(t.right);
    }
  }

  /** The best-match walk: follow the key's critical bits to a leaf. */
  function Best<V>(t: Tree<V>, key: Key): Tree<V> {
    match t
    case Leaf(_, _) => t
    case Branch(b, l, r) => Best(if Bit(key, b) then r else l, key)
  }

  lemma {:induction false} BestIsLeaf<V>(t: Tree<V>, key: Key)
    ensures Best(t, key).Leaf?
    ensures Best(t, key).key in Keys(t)
    ensures Wf(t) ==> Best(t, key).key in Items(t) && Items(t)[Best(t, key).key] == Best(t, key).val
  {
    ItemKeys(t);
    if t.Branch? {
      BestIsLeaf(t.Child(Bit(key, t.bit)), key);
      ItemKeys(t.left);
      ItemKeys(t.right);
    }
  }

  /** A stored key is its own best match, so comparing one leaf decides membership. */
  lemma {:induction false} BestFinds<V>(t: Tree<V>, key: Key)
    requires Wf(t)
    ensures Best(t, key).Leaf?
    ensures key in Keys(t) <==> Best(t, key).key == key
  {
    BestIsLeaf(t, key);
    if t.Branch? {
      BestFinds(t.Child(Bit(key, t.bit)), key);
    }
  }

  /** `insert` after its first walk: descend past every branch whose critical bit is not after `nb`,
      and put a new branch there. */
  function InsertAt<V>(t: Tree<V>, key: Key, val: V, nb: nat): Tree<V> {
    if t.Branch? && t.bit <= nb then
      if Bit(key, t.bit) then Branch(t.bit, t.left, InsertAt(t.right, key, val, nb))
      else Branch(t.bit, InsertAt(t.left, key, val, nb), t.right)
    else if Bit(key, nb) then Branch(nb, t, Leaf(key, val))
    else Branch(nb, Leaf(key, val), t)
  }

  /** The branches the second walk of `insert` meets, root first. */
  ghost function WalkBits<V>(t: Tree<V>, key: Key, nb: nat): seq<nat> {
    if t.Branch? && t.bit <= nb then [t.bit] + WalkBits(t.Child(Bit(key, t.bit)), key, nb) else []
  }

  /** What the first walk of `insert` establishes: `key` is new and first differs from its best
      match, a leaf below `t`, at bit `nb`. */
  ghost predicate NewAt<V>(t: Tree<V>, key: Key, nb: nat) {
    Best(t, key).Leaf? && IsFirstDiff(Best(t, key).key, key, nb)
  }

  /** The second walk never meets a branch with the new critical bit itself. */
  lemma {:induction false} NoEqualBit<V>(t: Tree<V>, key: Key, nb: nat)
    requires Wf(t) && NewAt(t, key, nb)
    ensures nb !in WalkBits(t, key, nb)
  {
    if t.Branch? && t.bit <= nb {
      var child := t.Child(Bit(key, t.bit));
      BestIsLeaf(child, key);
      NoEqualBit(child, key, nb);
    }
  }

  lemma {:induction false} InsertKeys<V>(t: Tree<V>, key: Key, val: V, nb: nat)
    ensures Keys(InsertAt(t, key, val, nb)) == Keys(t) + {key}
  {
    if t.Branch? && t.bit <= nb {
      InsertKeys(t.Child(Bit(key, t.bit)), key, val, nb);
    }
  }

  lemma {:induction false} InsertItems<V>(t: Tree<V>, key: Key, val: V, nb: nat)
    requires key !in Keys(t)
    ensures Items(InsertAt(t, key, val, nb)) == Items(t)[key := val]
  {
    if t.Branch? && t.bit <= nb {
      InsertItems(t.Child(Bit(key, t.bit)), key, val, nb);
      PutSide(Items(t.left), Items(t.right), key, val);
      ItemKeys(t.right);
    } else {
      ItemKeys(t);
      PutSide(Items(t), map[], key, val);
    }
  }

  lemma PutSide<V>(l: map<Key, V>, r: map<Key, V>, key: Key, val: V)
    ensures l + r[key := val] == (l + r)[key := val]
    ensures key !in r ==> l[key := val] + r == (l + r)[key := val]
  {
  }

  /** All leaves below the walk's stopping point share the best match's bits up to `nb`. */
  lemma StopAgrees<V>(t: Tree<V>, key: Key, nb: nat, k: Key)
    requires Wf(t) && NewAt(t, key, nb)
    requires t.Branch? ==> nb < t.bit
    requires k in Keys(t)
    ensures AgreeBelow(k, key, nb) && Bit(k, nb) != Bit(key, nb)
  {
    BestIsLeaf(t, key);
    assert t.Branch? ==> AgreeBelow(k, Best(t, key).key, t.bit);
  }

  lemma StopWf<V>(t: Tree<V>, key: Key, val: V, nb: nat)
    requires Wf(t) && NewAt(t, key, nb)
    requires t.Branch? ==> nb < t.bit
    ensures Wf(InsertAt(t, key, val, nb))
  {
    forall k | k in Keys(t)
      ensures AgreeBelow(k, key, nb) && Bit(k, nb) != Bit(key, nb)
    {
      StopAgrees(t, key, nb, k);
    }
    forall k, k' | k in Keys(t) + {key} && k' in Keys(t) + {key}
      ensures AgreeBelow(k, k', nb)
    {
      assert AgreeBelow(k, key, nb) && AgreeBelow(k', key, nb);
    }
  }

  /** A key that agrees with one leaf below the branch's bit may join the leaves below it. */
  lemma JoinAgrees<V>(t: Tree<V>, p: Key, key: Key)
    requires Wf(t) && t.Branch?
    requires p in Keys(t) && AgreeBelow(p, key, t.bit)
    ensures forall k, k' :: k in Keys(t) + {key} && k' in Keys(t) + {key} ==> AgreeBelow(k, k', t.bit)
  {
    forall k, k' | k in Keys(t) + {key} && k' in Keys(t) + {key}
      ensures AgreeBelow(k, k', t.bit)
    {
      assert AgreeBelow(p, if k == key then p else k, t.bit);
      assert AgreeBelow(p, if k' == key then p else k', t.bit);
    }
  }

  lemma {:induction false} InsertWf<V>(t: Tree<V>, key: Key, val: V, nb: nat)
    requires Wf(t) && NewAt(t, key, nb)
    ensures Wf(InsertAt(t, key, val, nb))
    ensures InsertAt(t, key, val, nb).bit == if t.Branch? && t.bit <= nb then t.bit else nb
  {
    if t.Branch? && t.bit <= nb {
      BestIsLeaf(t, key);
      NoEqualBit(t, key, nb);
      JoinAgrees(t, Best(t, key).key, key);
      InsertWf(t.Child(Bit(key, t.bit)), key, val, nb);
      InsertKeys(t, key, val, nb);
      InsertKeys(t.Child(Bit(key, t.bit)), key, val, nb);
    } else {
      StopWf(t, key, val, nb);
    }
  }

  lemma {:induction false} BestInserted<V>(t: Tree<V>, key: Key, val: V, nb: nat)
    ensures Best(InsertAt(t, key, val, nb), key) == Leaf(key, val)
  {
    if t.Branch? && t.bit <= nb {
      BestInserted(t.Child(Bit(key, t.bit)), key, val, nb);
    }
  }

  /** `remove`: the leaf's sibling takes the place of their parent. */
  function Delete<V>(t: Tree<V>, key: Key): Option<Tree<V>> {
    if t.Leaf? then
      if t.key == key then None else Some(t)
    else
      match Delete(t.Child(Bit(key, t.bit)), key)
      case None => Some(t.Child(!Bit(key, t.bit)))
      case Some(c) => Some(if Bit(key, t.bit) then Branch(t.bit, t.left, c) else Branch(t.bit, c, t.right))
  }

  ghost function KeysOf<V>(o: Option<Tree<V>>): set<Key> {
    if o.None? then {} else Keys(o.value)
  }

  ghost function ItemsOf<V>(o: Option<Tree<V>>): map<Key, V> {
    if o.None? then map[] else Items(o.value)
  }

  ghost predicate WfOf<V>(o: Option<Tree<V>>) {
    o.Some? ==> Wf(o.value)
  }

  lemma {:induction false} DeleteKeys<V>(t: Tree<V>, key: Key)
    requires Wf(t)
    ensures KeysOf(Delete(t, key)) == Keys(t) - {key}
  {
    if t.Branch? {
      DeleteKeys(t.Child(Bit(key, t.bit)), key);
    }
  }

  lemma {:induction false} DeleteItems<V>(t: Tree<V>, key: Key)
    requires Wf(t)
    ensures ItemsOf(Delete(t, key)) == Items(t) - {key}
  {
    if t.Branch? {
      var c := t.Child(Bit(key, t.bit));
      DeleteItems(c, key);
      DisjointItems(t.left, t.right, key, t.bit);
      assert ItemsOf(Delete(t, key)) ==
        if Bit(key, t.bit) then Items(t.left) + ItemsOf(Delete(c, key)) else ItemsOf(Delete(c, key)) + Items(t.right);
    }
  }

  lemma DisjointItems<V>(l: Tree<V>, r: Tree<V>, key: Key, b: nat)
    requires forall k :: k in Keys(l) ==> !Bit(k, b)
    requires forall k :: k in Keys(r) ==> Bit(k, b)
    ensures (Items(l) + Items(r)) - {key} ==
            if Bit(key, b) then Items(l) + (Items(r) - {key}) else (Items(l) - {key}) + Items(r)
  {
    ItemKeys(l);
    ItemKeys(r);
  }

  lemma {:induction false} DeleteWf<V>(t: Tree<V>, key: Key)
    requires Wf(t)
    ensures WfOf(Delete(t, key))
    ensures t.Branch? && Delete(t, key).Some? && Delete(t, key).value.Branch? ==> t.bit <= Delete(t, key).value.bit
  {
    if t.Branch? {
      DeleteWf(t.Child(Bit(key, t.bit)), key);
      DeleteKeys(t.Child(Bit(key, t.bit)), key);
    }
  }

  lemma {:induction false} DeleteAbsent<V>(t: Tree<V>, key: Key)
    requires Best(t, key).Leaf? && Best(t, key).key != key
    ensures Delete(t, key) == Some(t)
  {
    if t.Branch? {
      DeleteAbsent(t.Child(Bit(key, t.bit)), key);
    }
  }

  /** Below a branch both values of its critical bit occur, and no earlier bit varies. */
  lemma BranchBitVaries<V>(t: Tree<V>) returns (k0: Key, k1: Key)
    requires Wf(t) && t.Branch?
    ensures k0 in Keys(t) && k1 in Keys(t) && !Bit(k0, t.bit) && Bit(k1, t.bit)
  {
    k0 := HasKey(t.left);
    k1 := HasKey(t.right);
  }

  lemma SameKeysSameBit<V>(a: Tree<V>, b: Tree<V>)
    requires Wf(a) && Wf(b) && Keys(a) == Keys(b)
    requires a.Branch? && b.Branch?
    ensures a.bit == b.bit
  {
    var a0, a1 := BranchBitVaries(a);
    var b0, b1 := BranchBitVaries(b);
    assert AgreeBelow(a0, a1, b.bit);
    assert AgreeBelow(b0, b1, a.bit);
  }

  /** The map determines the tree: its shape does not depend on the history that built it. */
  lemma {:induction false} Canonical<V>(a: Tree<V>, b: Tree<V>)
    requires Wf(a) && Wf(b) && Items(a) == Items(b)
    ensures a == b
  {
    ItemKeys(a);
    ItemKeys(b);
    if a.Branch? && b.Branch? {
      SameKeysSameBit(a, b);
      SameSides(a, b);
      Canonical(a.left, b.left);
      Canonical(a.right, b.right);
    } else if a.Branch? {
      var k0, k1 := BranchBitVaries(a);
    } else if b.Branch? {
      var k0, k1 := BranchBitVaries(b);
    } else {
      assert a.key in Keys(b);
      assert Items(a)[a.key] == Items(b)[b.key];
    }
  }

  lemma SameSides<V>(a: Tree<V>, b: Tree<V>)
    requires Wf(a) && Wf(b) && Items(a) == Items(b)
    requires a.Branch? && b.Branch? && a.bit == b.bit
    ensures Items(a.left) == Items(b.left) && Items(a.right) == Items(b.right)
  {
    SideItems(a);
    SideItems(b);
  }

  lemma SideItems<V>(t: Tree<V>)
    requires Wf(t) && t.Branch?
    ensures Items(t.left) == map k | k in Items(t) && !Bit(k, t.bit) :: Items(t)[k]
    ensures Items(t.right) == map k | k in Items(t) && Bit(k, t.bit) :: Items(t)[k]
  {
    ItemKeys(t.left);
    ItemKeys(t.right);
  }

  /** Inserting a new key and removing it gives back the tree itself. */
  lemma InsertThenDelete<V>(t: Tree<V>, key: Key, val: V, nb: nat)
    requires Wf(t) && NewAt(t, key, nb)
    ensures Delete(InsertAt(t, key, val, nb), key) == Some(t)
  {
    BestFinds(t, key);
    ItemKeys(t);
    var t' := InsertAt(t, key, val, nb);
    InsertWf(t, key, val, nb);
    InsertItems(t, key, val, nb);
    DeleteItems(t', key);
    DeleteWf(t', key);
    assert ItemsOf(Delete(t', key)) == Items(t);
    Canonical(Delete(t', key).value, t);
  }

  /** The longest walk from the root. */
  ghost function Height<V>(t: Tree<V>): nat {
    match t
    case Leaf(_, _) => 0
    case Branch(_, l, r) => 1 + if Height(l) < Height(r) then Height(r) else Height(l)
  }

  /** No walk is longer than the number of key bits not yet decided. */
  lemma {:induction false} HeightBound<V>(t: Tree<V>, n: nat)
    requires Wf(t) && forall k :: k in Keys(t) ==> |k| <= n
    ensures t.Branch? ==> t.bit < 8 * n && Height(t) <= 8 * n - t.bit
    ensures Height(t) <= 8 * n
  {
    if t.Branch? {
      var k0, k1 := BranchBitVaries(t);
      BitsWithinKey(k0, k1, t.bit, n);
      HeightBound(t.left, n);
      HeightBound(t.right, n);
    }
  }

  /** The first bit at which two different keys differ. */
  ghost function FirstDiff(kind: Kind, a: Key, b: Key): (n: nat)
    requires OfKind(kind, a) && OfKind(kind, b) && a != b
    ensures IsFirstDiff(a, b, n)
  {
    KindSeparates(kind, a, b);
    var w: nat :| Bit(a, w) != Bit(b, w);
    LeastDiff(a, b, w)
  }

  ghost function LeastDiff(a: Key, b: Key, w: nat): (n: nat)
    requires Bit(a, w) != Bit(b, w)
    ensures IsFirstDiff(a, b, n)
  {
    if i: nat :| i < w && Bit(a, i) != Bit(b, i) then LeastDiff(a, b, i) else w
  }

  /** What every reachable tree satisfies. */
  ghost predicate Good<V>(kind: Kind, o: Option<Tree<V>>) {
    WfOf(o) && forall k :: k in KeysOf(o) ==> OfKind(kind, k)
  }

  datatype Op<V> = Insert(key: Key, val: V) | Remove(key: Key)

  /** `insert` and `remove` on a whole tree; a key that is present is left as it is. */
  ghost function Apply<V>(kind: Kind, o: Option<Tree<V>>, op: Op<V>): Option<Tree<V>>
    requires Good(kind, o) && OfKind(kind, op.key)
  {
    if o.None? then
      if op.Insert? then Some(Leaf(op.key, op.val)) else None
    else
      BestIsLeaf(o.value, op.key);
      var p := Best(o.value, op.key).key;
      if op.Remove? then Delete(o.value, op.key)
      else if p == op.key then o
      else Some(InsertAt(o.value, op.key, op.val, FirstDiff(kind, p, op.key)))
  }

  function ApplyMap<V>(m: map<Key, V>, op: Op<V>): map<Key, V> {
    match op
    case Insert(k, v) => if k in m then m else m[k := v]
    case Remove(k) => m - {k}
  }

  /** Each operation keeps the invariant and refines the finite-map operation. */
  lemma ApplyRefines<V>(kind: Kind, o: Option<Tree<V>>, op: Op<V>)
    requires Good(kind, o) && OfKind(kind, op.key)
    ensures Good(kind, Apply(kind, o, op))
    ensures ItemsOf(Apply(kind, o, op)) == ApplyMap(ItemsOf(o), op)
  {
    if o.Some? {
      BestIsLeaf(o.value, op.key);
      BestFinds(o.value, op.key);
      ItemKeys(o.value);
      if op.Remove? {
        DeleteKeys(o.value, op.key);
        DeleteItems(o.value, op.key);
        DeleteWf(o.value, op.key);
      } else if Best(o.value, op.key).key != op.key {
        var nb := FirstDiff(kind, Best(o.value, op.key).key, op.key);
        InsertWf(o.value, op.key, op.val, nb);
        InsertKeys(o.value, op.key, op.val, nb);
        InsertItems(o.value, op.key, op.val, nb);
      }
    }
  }

  ghost predicate OpsOfKind<V>(kind: Kind, ops: seq<Op<V>>) {
    forall op :: op in ops ==> OfKind(kind, op.key)
  }

  /** A whole history, from the empty tree. */
  ghost function Run<V>(kind: Kind, ops: seq<Op<V>>): (o: Option<Tree<V>>)
    requires OpsOfKind(kind, ops)
    ensures Good(kind, o)
    ensures ItemsOf(o) == RunMap(ops)
  {
    if ops == [] then None
    else
      var o := Run(kind, ops[..|ops| - 1]);
      ApplyRefines(kind, o, ops[|ops| - 1]);
      Apply(kind, o, ops[|ops| - 1])
  }

  ghost function RunMap<V>(ops: seq<Op<V>>): map<Key, V> {
    if ops == [] then map[] else ApplyMap(RunMap(ops[..|ops| - 1]), ops[|ops| - 1])
  }

  /** Any two histories that end in the same map end in the same tree. */
  lemma HistoriesAgree<V>(kind: Kind, a: seq<Op<V>>, b: seq<Op<V>>)
    requires OpsOfKind(kind, a) && OpsOfKind(kind, b)
    ensures RunMap(a) == RunMap(b) <==> Run(kind, a) == Run(kind, b)
  {
    var x, y := Run(kind, a), Run(kind, b);
    if RunMap(a) == RunMap(b) {
      if x.Some? {
        var k := HasKey(x.value);
        ItemKeys(x.value);
        assert k in ItemsOf(y);
      }
      if y.Some? {
        var k := HasKey(y.value);
        ItemKeys(y.value);
        assert k in ItemsOf(x);
      }
      if x.Some? {
        Canonical(x.value, y.value);
      }
    }
  }
}
