/** The hashes of the Merkle extension: a branch carries the XOR of the leaf hashes below it. */
module MerkleHash {
  import opened Bits
  import opened CritTree

  type Hash = bv64

  /** Hashes are combined by XOR. */
  function Mix(x: Hash, y: Hash): Hash {
    x ^ y
  }

  /** A leaf's tuple: its hash and the rest of its values. */
  datatype Entry<+V> = Entry(hash: Hash, value: V)

  /** What `getHash` returns on a node whose stored hashes are up to date. */
  function XorOf<V>(t: Tree<Entry<V>>): Hash {
    match t
    case Leaf(_, e) => e.hash
    case Branch(_, l, r) => Mix(XorOf(l), XorOf(r))
  }

  /** The leaves, left to right. */
  ghost function Leaves<V>(t: Tree<V>): seq<(Key, V)> {
    match t
    case Leaf(k, v) => [(k, v)]
    case Branch(_, l, r) => Leaves(l) + Leaves(r)
  }

  /** A mask of one bit. */
  predicate OneBit(mask: Hash) {
    mask != 0 && mask & (mask - 1) == 0
  }

  predicate HasBit(x: Hash, mask: Hash) {
    x & mask != 0
  }

  /** How many of the leaves have a hash with that bit. */
  ghost function CountBit<V>(leaves: seq<(Key, Entry<V>)>, mask: Hash): nat {
    if leaves == [] then 0 else (if HasBit(leaves[0].1.hash, mask) then 1 else 0) + CountBit(leaves[1..], mask)
  }

  lemma {:induction false} CountJoins<V>(a: seq<(Key, Entry<V>)>, b: seq<(Key, Entry<V>)>, mask: Hash)
    ensures CountBit(a + b, mask) == CountBit(a, mask) + CountBit(b, mask)
  {
    if a == [] {
      assert a + b == b;
    } else {
      CountJoins(a[1..], b, mask);
      assert (a + b)[1..] == a[1..] + b;
    }
  }

  lemma OneOrNone(x: Hash, mask: Hash)
    requires OneBit(mask)
    ensures x & mask == 0 || x & mask == mask
  {
  }

  lemma MixBit(x: Hash, y: Hash, mask: Hash)
    requires OneBit(mask)
    ensures HasBit(Mix(x, y), mask) <==> HasBit(x, mask) != HasBit(y, mask)
  {
    OneOrNone(x, mask);
    OneOrNone(y, mask);
    MixMasked(x, y, mask);
  }

  lemma MixMasked(x: Hash, y: Hash, mask: Hash)
    ensures Mix(x, y) & mask == (x & mask) ^ (y & mask)
  {
  }

  /** A node's hash, bit by bit: set if and only if an odd number of the leaves below it have the bit in theirs. */
  lemma {:induction false} XorOfLeaves<V>(t: Tree<Entry<V>>, mask: Hash)
    requires OneBit(mask)
    ensures HasBit(XorOf(t), mask) <==> CountBit(Leaves(t), mask) % 2 == 1
  {
    hide HasBit, OneBit, Mix, CountBit;
    if t.Leaf? {
      CountOne(t.key, t.val, mask);
    } else {
      XorOfLeaves(t.left, mask);
      XorOfLeaves(t.right, mask);
      CountJoins(Leaves(t.left), Leaves(t.right), mask);
      MixBit(XorOf(t.left), XorOf(t.right), mask);
    }
  }

  lemma CountOne<V>(k: Key, e: Entry<V>, mask: Hash)
    ensures CountBit([(k, e)], mask) == if HasBit(e.hash, mask) then 1 else 0
  {
    hide HasBit;
    assert CountBit([(k, e)][1..], mask) == 0;
  }

  /** The stored (key, hash) pairs: all that two replicas compare. */
  ghost function KeyHashes<V>(t: Tree<Entry<V>>): map<Key, Hash> {
    HashesOnly(Items(t))
  }

  ghost function HashesOnly<V>(m: map<Key, Entry<V>>): map<Key, Hash> {
    map k | k in m :: m[k].hash
  }

  /** The same branches with the same hash at each, over leaves with the same keys and hashes. */
  ghost predicate Alike<V, W>(a: Tree<Entry<V>>, b: Tree<Entry<W>>) {
    && XorOf(a) == XorOf(b)
    && if a.Branch? then b.Branch? && a.bit == b.bit && Alike(a.left, b.left) && Alike(a.right, b.right)
       else b.Leaf? && a.key == b.key
  }

  /** The tree with nothing but the hashes in its leaves. */
  ghost function Strip<V>(t: Tree<Entry<V>>): Tree<Hash> {
    match t
    case Leaf(k, e) => Leaf(k, e.hash)
    case Branch(b, l, r) => Branch(b, Strip(l), Strip(r))
  }

  lemma {:induction false} StripKeys<V>(t: Tree<Entry<V>>)
    ensures Keys(Strip(t)) == Keys(t)
    ensures Wf(t) ==> Wf(Strip(t))
  {
    hide Bit;
    if t.Branch? {
      StripKeys(t.left);
      StripKeys(t.right);
    }
  }

  lemma {:induction false} StripItems<V>(t: Tree<Entry<V>>)
    ensures Items(Strip(t)) == KeyHashes(t)
  {
    if t.Branch? {
      StripItems(t.left);
      StripItems(t.right);
      HashesJoin(Items(t.left), Items(t.right));
    }
  }

  lemma HashesJoin<V>(l: map<Key, Entry<V>>, r: map<Key, Entry<V>>)
    ensures HashesOnly(l + r) == HashesOnly(l) + HashesOnly(r)
  {
  }

  lemma {:induction false} StripAlike<V, W>(a: Tree<Entry<V>>, b: Tree<Entry<W>>)
    ensures Strip(a) == Strip(b) <==> Alike(a, b)
  {
    if a.Branch? && b.Branch? {
      StripAlike(a.left, b.left);
      StripAlike(a.right, b.right);
    }
  }

  /** Equal (key, hash) sets give the same branches with equal hashes at every one of them, whatever else the
      leaves hold; and only equal sets do. */
  lemma SameItemsSameHashes<V, W>(a: Tree<Entry<V>>, b: Tree<Entry<W>>)
    requires Wf(a) && Wf(b)
    ensures KeyHashes(a) == KeyHashes(b) <==> Alike(a, b)
  {
    StripKeys(a);
    StripKeys(b);
    StripItems(a);
    StripItems(b);
    StripAlike(a, b);
    if KeyHashes(a) == KeyHashes(b) {
      Canonical(Strip(a), Strip(b));
    }
  }
}
