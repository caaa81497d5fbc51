/** Whether reconciliation by points finds every difference: two replicas at rest that each ask about the other's
    top, and about what every traverse answer names. */
module Reconcile {
  import opened Bits
  import opened CriticalBit
  import opened CritTree
  import opened MerkleHash
  import opened PrefixQuery
  import opened MerkleDiff
  import opened Options

  /** The keybits a node is named with. */
  function BitsOf<V>(n: nat, t: Tree<V>): nat {
    if t.Branch? then t.bit else 8 * n
  }

  /** Hashes tell the contents of nodes apart. */
  ghost predicate NoCollisions<V(!new)>(a: Tree<Entry<V>>, b: Tree<Entry<V>>) {
    forall s, s' :: Within(s, a) && Within(s', b) && XorOf(s) == XorOf(s') ==> KeyHashes(s) == KeyHashes(s')
  }

  /** `a` has the key, and `b` does not, or with another hash. */
  ghost predicate Differs<V>(d: Key, a: Tree<Entry<V>>, b: Tree<Entry<V>>) {
    d in KeyHashes(a) && (d !in KeyHashes(b) || KeyHashes(a)[d] != KeyHashes(b)[d])
  }

  /** A conversation that begins with `a`'s top, asked of `b`, and goes back and forth. */
  ghost predicate Talk<V>(n: nat, a: Tree<Entry<V>>, b: Tree<Entry<V>>, rounds: seq<Round<V>>) {
    && |rounds| > 0 && rounds[0] == Round(b, TopOf(n, Some(a))) && Conversation(n, rounds)
    && forall i :: 0 <= i < |rounds| ==> rounds[i].tree == if i % 2 == 0 then b else a
  }

  /** One of the two conversations that begin with the tops. */
  ghost predicate Talking<V>(n: nat, a: Tree<Entry<V>>, b: Tree<Entry<V>>, rounds: seq<Round<V>>) {
    Talk(n, a, b, rounds) || Talk(n, b, a, rounds)
  }

  /** The question put to `tree` is about node `u`, and the answer about node `l`. */
  ghost predicate Asked<V>(n: nat, rounds: seq<Round<V>>, u: Tree<Entry<V>>, tree: Tree<Entry<V>>, l: Tree<Entry<V>>) {
    |rounds| > 0 &&
    (var round := rounds[|rounds| - 1];
     && round.tree == tree && round.point == PointOf(n, round.point.key, u)
     && Nearest(tree, round.point.key, round.point.keybits) == l)
  }

  /** The last question is about node `u` and answered with a request for an exchange or a range about node `l`, and
      one of the two nodes holds the key. */
  ghost predicate Reports<V>(n: nat, rounds: seq<Round<V>>, u: Tree<Entry<V>>, l: Tree<Entry<V>>, d: Key) {
    |rounds| > 0 && Asked(n, rounds, u, rounds[|rounds| - 1].tree, l) && (d in Keys(u) || d in Keys(l)) &&
    (var round := rounds[|rounds| - 1];
     var r := DiffOf(n, Some(round.tree), round.point);
     r.NeedExchange() || r.NeedPartialRange(n))
  }

  // ----- walks that meet

  /** The node lies on the key's way. */
  ghost predicate OnWay<V>(t: Tree<V>, key: Key, s: Tree<V>) {
    s == t || (t.Branch? && OnWay(t.Child(Bit(key, t.bit)), key, s))
  }

  lemma {:induction false} OnWayDown<V>(t: Tree<V>, key: Key, s: Tree<V>)
    requires OnWay(t, key, s) && s.Branch?
    ensures OnWay(t, key, s.Child(Bit(key, s.bit)))
  {
    if s != t {
      OnWayDown(t.Child(Bit(key, t.bit)), key, s);
    } else {
      var c := s.Child(Bit(key, s.bit));
      assert OnWay(c, key, c);
    }
  }

  lemma {:induction false} OnWayNearest<V>(t: Tree<V>, key: Key, s: Tree<V>, bits: nat)
    requires Wf(t) && OnWay(t, key, s) && s.Branch? && s.bit < bits
    ensures Nearest(t, key, bits) == Nearest(s, key, bits)
    ensures s == t || (t.Branch? && t.bit < s.bit)
  {
    if s != t {
      var c := t.Child(Bit(key, t.bit));
      OnWayNearest(c, key, s, bits);
    }
  }

  ghost predicate AllOnWay<V>(s: Tree<V>, t: Tree<V>, l: Tree<V>) {
    forall k :: k in Keys(s) ==> OnWay(t, k, l)
  }

  /** From a node whose critical bit the other's has too, the same side's children are on the way. */
  lemma SidesMeet<V>(u: Tree<V>, t: Tree<V>, l: Tree<V>, d: bool)
    requires Wf(u) && u.Branch? && l.Branch? && u.bit == l.bit && AllOnWay(u, t, l)
    ensures AllOnWay(u.Child(d), t, l.Child(d))
  {
    forall k | k in Keys(u.Child(d))
      ensures OnWay(t, k, l.Child(d))
    {
      assert Bit(k, u.bit) == d;
      OnWayDown(t, k, l);
    }
  }

  lemma ChildNearest<V>(n: nat, u: Tree<V>, t: Tree<V>, l: Tree<V>, d: bool, k: Key)
    requires Wf(u) && Wf(t) && u.Branch? && l.Branch? && u.bit == l.bit && AllOnWay(u, t, l)
    requires k in Keys(u.Child(d)) && l.bit < BitsOf(n, u.Child(d)) <= BitsOf(n, l.Child(d))
    ensures Nearest(t, k, BitsOf(n, u.Child(d))) == l.Child(d)
  {
    assert Bit(k, u.bit) == d;
    OnWayNearest(t, k, l, BitsOf(n, u.Child(d)));
  }

  // ----- one step

  lemma HashesTell<V(!new)>(x: Tree<Entry<V>>, y: Tree<Entry<V>>, u: Tree<Entry<V>>, l: Tree<Entry<V>>, d: Key)
    requires Wf(x) && Wf(y) && NoCollisions(x, y) && Differs(d, x, y)
    requires Within(u, x) && Within(l, y) && d in Keys(u)
    ensures XorOf(u) != XorOf(l)
  {
    hide KeyHashes, Within, XorOf, Wf;
    KeyHashed(u, d);
    HashThere(u, x, d);
    if XorOf(u) == XorOf(l) {
      assert KeyHashes(u) == KeyHashes(l);
      HashThere(l, y, d);
    }
  }

  lemma KeyHashed<V>(t: Tree<Entry<V>>, d: Key)
    ensures d in Keys(t) <==> d in KeyHashes(t)
  {
    ItemKeys(t);
  }

  lemma HashThere<V>(s: Tree<Entry<V>>, t: Tree<Entry<V>>, d: Key)
    requires Within(s, t) && Wf(t) && d in KeyHashes(s)
    ensures d in KeyHashes(t) && KeyHashes(t)[d] == KeyHashes(s)[d]
  {
    PartOfItems(s, t, d);
  }

  lemma {:induction false} PartOfItems<V>(s: Tree<Entry<V>>, t: Tree<Entry<V>>, d: Key)
    requires Within(s, t) && Wf(t) && d in Items(s)
    ensures d in Items(t) && Items(t)[d] == Items(s)[d]
  {
    if s != t {
      ItemKeys(t.left);
      ItemKeys(t.right);
      if Within(s, t.left) {
        PartOfItems(s, t.left, d);
      } else {
        PartOfItems(s, t.right, d);
      }
    }
  }

  /** A talk goes on with one of the points of the last answer. */
  lemma TalkOn<V>(n: nat, a: Tree<Entry<V>>, b: Tree<Entry<V>>, rounds: seq<Round<V>>, next: Location)
    requires Wf(a) && Wf(b) && KeysSized(n, a) && KeysSized(n, b)
    requires Talking(n, a, b, rounds) && |rounds| > 0 && Continues(n, rounds[|rounds| - 1], next)
    ensures
      var tree := rounds[|rounds| - 1].tree;
      Talking(n, a, b, rounds + [Round(if tree == a then b else a, next)])
  {
    hide Talk, Continues, Wf, KeysSized;
    if Talk(n, a, b, rounds) {
      OneTalkOn(n, a, b, rounds, next);
    } else {
      OneTalkOn(n, b, a, rounds, next);
    }
  }

  lemma OneTalkOn<V>(n: nat, a: Tree<Entry<V>>, b: Tree<Entry<V>>, rounds: seq<Round<V>>, next: Location)
    requires Wf(a) && Wf(b) && KeysSized(n, a) && KeysSized(n, b)
    requires Talk(n, a, b, rounds) && |rounds| > 0 && Continues(n, rounds[|rounds| - 1], next)
    ensures
      var tree := rounds[|rounds| - 1].tree;
      && Talk(n, a, b, rounds + [Round(if tree == a then b else a, next)])
      && Talk(n, a, b, rounds + [Round(if tree == b then a else b, next)])
  {
    hide Continues, Wf, KeysSized;
    var i := |rounds| - 1;
    var tree := if (i + 1) % 2 == 0 then b else a;
    var more := rounds + [Round(tree, next)];
    forall j | 0 <= j < |more|
      ensures more[j].tree == (if j % 2 == 0 then b else a) && Wf(more[j].tree) && KeysSized(n, more[j].tree)
    {
      assert j <= i ==> more[j] == rounds[j];
    }
    forall j, k | 0 <= j && k == j + 1 < |more|
      ensures Continues(n, more[j], more[k].point)
    {
      assert more[j] == rounds[j] && (k <= i ==> more[k] == rounds[k]);
    }
  }

  /** Different nodes: the smaller keybits win a request for the other node. */
  lemma AnswerHere<V>(n: nat, rounds: seq<Round<V>>, u: Tree<Entry<V>>, tree: Tree<Entry<V>>, l: Tree<Entry<V>>, d: Key)
    requires Wf(tree) && KeysSized(n, tree) && 8 * n < NO_KEYBITS && Asked(n, rounds, u, tree, l)
    requires XorOf(u) != XorOf(l) && (d in Keys(u) || d in Keys(l))
    requires BitsOf(n, u) < BitsOf(n, l) || (u.Leaf? && l.Leaf?)
    ensures Reports(n, rounds, u, l, d)
  {
    hide DiffOf, Nearest, XorOf, Wf, KeysSized;
    DiffAnswers(n, Some(tree), rounds[|rounds| - 1].point);
    PointSays(n, rounds[|rounds| - 1].point.key, u);
  }

  lemma PointSays<V>(n: nat, key: Key, t: Tree<Entry<V>>)
    ensures
      var p := PointOf(n, key, t);
      p.hash == XorOf(t) && p.keybits == BitsOf(n, t) && (t.Leaf? ==> p.key == t.key)
  {
  }

  /** The same critical bit: the answer names both children. */
  lemma TraverseHere<V>(n: nat, rounds: seq<Round<V>>, u: Tree<Entry<V>>, tree: Tree<Entry<V>>, l: Tree<Entry<V>>,
                        e: bool)
    requires Wf(tree) && KeysSized(n, tree) && 8 * n < NO_KEYBITS && Asked(n, rounds, u, tree, l)
    requires XorOf(u) != XorOf(l) && u.Branch? && l.Branch? && u.bit == l.bit
    ensures First(l.Child(e)).Leaf? && First(l.Child(e)).key in Keys(l.Child(e))
    ensures Continues(n, rounds[|rounds| - 1], PointOf(n, First(l.Child(e)).key, l.Child(e)))
  {
    hide Nearest, XorOf, Wf, KeysSized;
    DiffAnswers(n, Some(tree), rounds[|rounds| - 1].point);
    FirstIsLeaf(l.left);
    FirstIsLeaf(l.right);
  }

  /** An open question: about `u` of `x`, to be answered by `y` with `l`. */
  ghost predicate Open<V>(n: nat, x: Tree<Entry<V>>, y: Tree<Entry<V>>, rounds: seq<Round<V>>,
                          u: Tree<Entry<V>>, l: Tree<Entry<V>>) {
    Talking(n, x, y, rounds) && Asked(n, rounds, u, y, l)
  }

  /** After a traverse, the answering side's child is asked about in turn. */
  lemma OpenNext<V>(n: nat, x: Tree<Entry<V>>, y: Tree<Entry<V>>, rounds: seq<Round<V>>,
                    u: Tree<Entry<V>>, l: Tree<Entry<V>>, e: bool) returns (more: seq<Round<V>>)
    requires Wf(x) && Wf(y) && KeysSized(n, x) && KeysSized(n, y) && 8 * n < NO_KEYBITS
    requires Within(u, x) && Open(n, y, x, rounds, l, u)
    requires XorOf(u) != XorOf(l) && u.Branch? && l.Branch? && u.bit == l.bit && AllOnWay(u, y, l)
    ensures BitsOf(n, u.Child(e)) <= BitsOf(n, l.Child(e)) ==> Open(n, x, y, more, u.Child(e), l.Child(e))
  {
    hide Wf, KeysSized, AllOnWay, XorOf, Within, Continues, Talk, First;
    TraverseHere(n, rounds, l, x, u, e);
    var u' := u.Child(e);
    var next := PointOf(n, First(u').key, u');
    more := rounds + [Round(y, next)];
    TalkOn(n, x, y, rounds, next);
    ChildBits(n, x, u, e);
    NodeWf(x, u);
    if BitsOf(n, u') <= BitsOf(n, l.Child(e)) {
      ChildNearest(n, u, y, l, e, First(u').key);
      PointNames(n, First(u').key, u');
    }
  }

  /** A point's key may be any for a branch, and is a leaf's own. */
  lemma PointNames<V>(n: nat, key: Key, t: Tree<Entry<V>>)
    requires First(t).Leaf? && First(t).key == key
    ensures PointOf(n, key, t).key == key && PointOf(n, key, t).keybits == BitsOf(n, t)
  {
  }

  lemma NodeWf<V>(t: Tree<V>, s: Tree<V>)
    requires Wf(t) && Within(s, t)
    ensures Wf(s)
  {
    WithinKeys(s, t);
  }

  lemma NodeBits<V>(n: nat, t: Tree<V>, s: Tree<V>)
    requires Wf(t) && KeysSized(n, t) && Within(s, t)
    ensures s.Branch? ==> s.bit < 8 * n
  {
    WithinKeys(s, t);
    HeightBound(s, n);
  }

  lemma ChildBits<V>(n: nat, t: Tree<V>, s: Tree<V>, e: bool)
    requires Wf(t) && KeysSized(n, t) && Within(s, t) && s.Branch?
    ensures s.bit < BitsOf(n, s.Child(e))
  {
    NodeBits(n, t, s);
    NodeWf(t, s);
  }

  lemma SideOfKey<V>(t: Tree<V>, s: Tree<V>, d: Key)
    requires Wf(t) && Within(s, t) && s.Branch? && d in Keys(s)
    ensures d in Keys(s.Child(Bit(d, s.bit)))
  {
    NodeWf(t, s);
  }

  /** A key of `u` that differs is reported, in one of the two conversations. */
  lemma {:induction false} Finds<V(!new)>(n: nat, x: Tree<Entry<V>>, y: Tree<Entry<V>>,
      u: Tree<Entry<V>>, l: Tree<Entry<V>>, d: Key, ta: seq<Round<V>>, tb: seq<Round<V>>)
    returns (rounds: seq<Round<V>>, v: Tree<Entry<V>>, w: Tree<Entry<V>>)
    requires Wf(x) && Wf(y) && KeysSized(n, x) && KeysSized(n, y) && 8 * n < NO_KEYBITS
    requires NoCollisions(x, y) && Differs(d, x, y)
    requires Within(u, x) && Within(l, y) && d in Keys(u) && AllOnWay(u, y, l) && AllOnWay(l, x, u)
    requires BitsOf(n, u) <= BitsOf(n, l) ==> Open(n, x, y, ta, u, l)
    requires BitsOf(n, l) <= BitsOf(n, u) ==> Open(n, y, x, tb, l, u)
    ensures Talking(n, x, y, rounds) && Reports(n, rounds, v, w, d)
    ensures (Within(v, x) && Within(w, y)) || (Within(v, y) && Within(w, x))
    decreases u
  {
    hide Wf, KeysSized, NoCollisions, Differs, AllOnWay, Talk, Asked, XorOf, Reports, Within;
    HashesTell(x, y, u, l, d);
    NodeBits(n, x, u);
    NodeBits(n, y, l);
    if BitsOf(n, u) < BitsOf(n, l) || (u.Leaf? && l.Leaf?) {
      AnswerHere(n, ta, u, y, l, d);
      return ta, u, l;
    }
    if BitsOf(n, l) < BitsOf(n, u) {
      AnswerHere(n, tb, l, x, u, d);
      return tb, l, u;
    }
    var e := Bit(d, u.bit);
    SideOfKey(x, u, d);
    ChildrenWithin(u, x);
    ChildrenWithin(l, y);
    NodeWf(x, u);
    NodeWf(y, l);
    SidesMeet(u, y, l, e);
    SidesMeet(l, x, u, e);
    var ta' := OpenNext(n, x, y, tb, u, l, e);
    var tb' := OpenNext(n, y, x, ta, l, u, e);
    rounds, v, w := Finds(n, x, y, u.Child(e), l.Child(e), d, ta', tb');
  }

  lemma TopNames<V>(n: nat, a: Tree<Entry<V>>, b: Tree<Entry<V>>)
    requires Wf(a) && Wf(b) && KeysSized(n, a) && KeysSized(n, b)
    ensures Talk(n, a, b, [Round(b, TopOf(n, Some(a)))])
    ensures BitsOf(n, a) <= BitsOf(n, b) ==> Asked(n, [Round(b, TopOf(n, Some(a)))], a, b, b)
  {
  }

  /** Some question is about a node with the key, or answered with one, and the answer asks for an exchange or a
      range. */
  ghost predicate Reported<V(!new)>(n: nat, a: Tree<Entry<V>>, b: Tree<Entry<V>>, d: Key) {
    exists rounds, u, l :: Talking(n, a, b, rounds) && Reports(n, rounds, u, l, d)
                           && ((Within(u, a) && Within(l, b)) || (Within(u, b) && Within(l, a)))
  }

  /** Together the two conversations that begin with the tops report every key that differs, as long as no two
      different contents have the same hash. */
  lemma EveryDifferenceReported<V(!new)>(n: nat, a: Tree<Entry<V>>, b: Tree<Entry<V>>, d: Key)
    requires Wf(a) && Wf(b) && KeysSized(n, a) && KeysSized(n, b) && 8 * n < NO_KEYBITS
    requires NoCollisions(a, b) && (Differs(d, a, b) || Differs(d, b, a))
    ensures Reported(n, a, b, d)
  {
    hide Wf, KeysSized, NoCollisions, Talk, Asked, Reports;
    TopNames(n, a, b);
    TopNames(n, b, a);
    var ta, tb := [Round(b, TopOf(n, Some(a)))], [Round(a, TopOf(n, Some(b)))];
    KeyHashed(a, d);
    KeyHashed(b, d);
    if Differs(d, a, b) {
      var rounds, u, l := Finds(n, a, b, a, b, d, ta, tb);
    } else {
      NoneColliding(a, b);
      var rounds, u, l := Finds(n, b, a, b, a, d, tb, ta);
    }
  }

  lemma NoneColliding<V(!new)>(a: Tree<Entry<V>>, b: Tree<Entry<V>>)
    requires NoCollisions(a, b)
    ensures NoCollisions(b, a)
  {
    hide KeyHashes, XorOf, Within;
  }

  // ----- one conversation is not enough

  /** One-byte keys 00, 20, 40, 60 and 80 in hexadecimal. */
  function Five<V>(v: V): Tree<Entry<V>> {
    Branch(0, Branch(1, Branch(2, Leaf([0x00], Entry(1, v)), Leaf([0x20], Entry(2, v))), Two(v)),
           Leaf([0x80], Entry(16, v)))
  }

  function Three<V>(v: V): Tree<Entry<V>> {
    Branch(0, Two(v), Leaf([0x80], Entry(16, v)))
  }

  function Two<V>(v: V): Tree<Entry<V>> {
    Branch(2, Leaf([0x40], Entry(4, v)), Leaf([0x60], Entry(8, v)))
  }

  predicate HasBits(c: bv8, b0: bool, b1: bool, b2: bool) {
    Bit([c], 0) == b0 && Bit([c], 1) == b1 && Bit([c], 2) == b2
  }

  lemma KeyBits012()
    ensures HasBits(0x00, false, false, false) && HasBits(0x20, false, false, true)
    ensures HasBits(0x40, false, true, false) && HasBits(0x60, false, true, true) && HasBits(0x80, true, false, false)
  {
    assert BitOf(0x20, 2) && BitOf(0x40, 1) && BitOf(0x60, 1) && BitOf(0x60, 2) && BitOf(0x80, 0);
  }

  /** A branch over leaves that share the bits before it. */
  lemma JoinedWf<V>(b: nat, l: Tree<V>, r: Tree<V>, b0: bool, b1: bool)
    requires Wf(l) && Wf(r) && b <= 2 && (l.Branch? ==> b < l.bit) && (r.Branch? ==> b < r.bit)
    requires forall k :: k in Keys(l) ==> !Bit(k, b)
    requires forall k :: k in Keys(r) ==> Bit(k, b)
    requires forall k :: k in Keys(l) + Keys(r) ==> (b > 0 ==> Bit(k, 0) == b0) && (b > 1 ==> Bit(k, 1) == b1)
    ensures Wf(Branch(b, l, r)) && Keys(Branch(b, l, r)) == Keys(l) + Keys(r)
  {
    hide Bit;
    forall k, k' | k in Keys(l) + Keys(r) && k' in Keys(l) + Keys(r)
      ensures AgreeBelow(k, k', b)
    {
      forall j: nat | j < b ensures Bit(k, j) == Bit(k', j) {
        assert j == 0 || j == 1;
      }
    }
  }

  lemma TwoIsGood<V>(v: V)
    ensures Wf(Two(v)) && Keys(Two(v)) == {[0x40], [0x60]}
  {
    KeyBits012();
    hide Bit;
    JoinedWf(2, Two(v).left, Two(v).right, false, true);
  }

  lemma FiveIsGood<V>(v: V)
    ensures Wf(Five(v)) && Keys(Five(v)) == {[0x00], [0x20], [0x40], [0x60], [0x80]}
    ensures Wf(Three(v)) && Keys(Three(v)) == {[0x40], [0x60], [0x80]}
  {
    KeyBits012();
    TwoIsGood(v);
    hide Bit, Two, Wf;
    LeafWf(Three(v).right);
    var l := Five(v).left;
    LeafWf(l.left.left);
    LeafWf(l.left.right);
    JoinedWf(2, l.left.left, l.left.right, false, false);
    assert Keys(l.left) == {[0x00], [0x20]};
    TwoBranches(v);
    JoinedWf(1, l.left, l.right, false, false);
    JoinedWf(0, l, Five(v).right, false, false);
    JoinedWf(0, Three(v).left, Three(v).right, false, false);
  }

  lemma LeafWf<V>(t: Tree<V>)
    requires t.Leaf?
    ensures Wf(t) && Keys(t) == {t.key}
  {
  }

  lemma TwoBranches<V>(v: V)
    ensures Two(v).Branch? && Two(v).bit == 2
  {
  }

  /** A replica that lacks 00 and 20 answers the other's top by naming nodes that the other has too. */
  lemma OneWayMisses<V>(v: V)
    ensures
      var a, b := Five(v), Three(v);
      && Wf(a) && Wf(b) && Differs([0x00], a, b) && Differs([0x20], a, b)
      && (var r := DiffOf(1, Some(b), TopOf(1, Some(a)));
          && r.Traverse()
          && DiffOf(1, Some(a), r.points[0]).NoDifference() && DiffOf(1, Some(a), r.points[1]).NoDifference())
  {
    FiveIsGood(v);
    KeyHashed(Five(v), [0x00]);
    KeyHashed(Five(v), [0x20]);
    KeyHashed(Three(v), [0x00]);
    KeyHashed(Three(v), [0x20]);
    OtherKeys(0x00);
    OtherKeys(0x20);
    FirstAnswer(v);
  }

  lemma OtherKeys(c: bv8)
    ensures c !in {0x40, 0x60, 0x80} ==> [c] !in {[0x40], [0x60], [0x80]}
  {
    assert [c][0] == c;
  }

  lemma FirstAnswer<V>(v: V)
    ensures
      var a, b := Five(v), Three(v);
      var r := DiffOf(1, Some(b), TopOf(1, Some(a)));
      && r.Traverse()
      && DiffOf(1, Some(a), r.points[0]).NoDifference() && DiffOf(1, Some(a), r.points[1]).NoDifference()
  {
    KeyBits012();
    TwoFacts(v);
    hide Bit, Two;
    var a, b := Five(v), Three(v);
    assert XorOf(a.left.left) == 3 && XorOf(a.left) == 15 && XorOf(a) == 31 && XorOf(b) == 28;
    var r := DiffOf(1, Some(b), TopOf(1, Some(a)));
    assert r.points[0] == Location(12, [0x40], 2) && r.points[1] == Location(16, [0x80], 8);
    TwoFound(v);
    assert Nearest(a, [0x80], 8) == a.right;
  }

  lemma TwoFacts<V>(v: V)
    ensures XorOf(Two(v)) == 12 && First(Two(v)) == Leaf([0x40], Entry(4, v)) && Two(v).Branch? && Two(v).bit == 2
  {
    assert XorOf(Two(v).left) == 4 && XorOf(Two(v).right) == 8;
  }

  lemma TwoFound<V>(v: V)
    ensures Nearest(Five(v), [0x40], 2) == Two(v)
  {
    KeyBits012();
    TwoFacts(v);
    hide Bit, Two;
    assert Nearest(Two(v), [0x40], 2) == Two(v);
    assert Nearest(Five(v).left, [0x40], 2) == Two(v);
  }
}
