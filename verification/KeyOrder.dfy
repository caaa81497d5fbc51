/** The order of keys: left to right in the tree, bit by bit and byte by byte; and how much of it the comparison
    behind `enumerate` sees. */
module KeyOrder {
  import opened Bits
  import opened CriticalBit
  import opened CritTree
  import opened PrefixQuery

  /** Byte-wise lexicographic order of zero-padded keys. */
  ghost predicate LexLess(a: Key, b: Key) {
    exists n: nat :: LessAt(a, b, n)
  }

  /** The first different byte is at `n`, and less in `a`. */
  ghost predicate LessAt(a: Key, b: Key, n: nat) {
    ByteAt(a, n) < ByteAt(b, n) && forall i: nat :: i < n ==> ByteAt(a, i) == ByteAt(b, i)
  }

  ghost predicate Ascending(s: seq<Key>) {
    forall i, j :: 0 <= i < j < |s| ==> LexLess(s[i], s[j])
  }

  /** The keys of a tree, left to right. */
  ghost function Order<V>(t: Tree<V>): seq<Key> {
    match t
    case Leaf(k, _) => [k]
    case Branch(_, l, r) => Order(l) + Order(r)
  }

  lemma ByteLess(x: bv8, y: bv8, p: nat)
    requires p < 8 && !BitOf(x, p) && BitOf(y, p)
    requires forall q: nat :: q < p ==> BitOf(x, q) == BitOf(y, q)
    ensures x < y
  {
    assert x & !LowMask(8 - p) == y & !LowMask(8 - p) by {
      MaskedEqual(x, y, 8 - p);
      XorZero(x, y, !LowMask(8 - p));
    }
    TopBitDecides(x, y, p);
  }

  lemma XorZero(x: bv8, y: bv8, m: bv8)
    requires (x ^ y) & m == 0
    ensures x & m == y & m
  {
  }

  lemma TopBitDecides(x: bv8, y: bv8, p: nat)
    requires p < 8 && x & Mask(p) == 0 && y & Mask(p) != 0
    requires x & !LowMask(8 - p) == y & !LowMask(8 - p)
    ensures x < y
  {
  }

  /** The first differing bit decides the order. */
  lemma FirstDiffOrders(a: Key, b: Key, i: nat)
    requires IsFirstDiff(a, b, i) && !Bit(a, i)
    ensures LexLess(a, b)
  {
    var n := i / 8;
    var x, y := ByteAt(a, n), ByteAt(b, n);
    forall m: nat | m < n
      ensures ByteAt(a, m) == ByteAt(b, m)
    {
      ByteFromBits(a, b, m);
    }
    forall q: nat | q < i % 8
      ensures BitOf(x, q) == BitOf(y, q)
    {
      assert Bit(a, 8 * n + q) == Bit(b, 8 * n + q);
    }
    ByteLess(x, y, i % 8);
    assert LessAt(a, b, n);
  }

  /** Left to right is lexicographic order. */
  lemma {:induction false} OrderAscends<V>(t: Tree<V>)
    requires Wf(t)
    ensures Ascending(Order(t))
    ensures forall k :: k in Order(t) <==> k in Keys(t)
  {
    if t.Branch? {
      OrderAscends(t.left);
      OrderAscends(t.right);
      forall a, b | a in Keys(t.left) && b in Keys(t.right)
        ensures LexLess(a, b)
      {
        assert AgreeBelow(a, b, t.bit);
        FirstDiffOrders(a, b, t.bit);
      }
    }
  }

  lemma {:induction false} Ends<V>(t: Tree<V>)
    ensures |Order(t)| > 0
    ensures First(t).Leaf? && First(t).key == Order(t)[0]
    ensures Last(t).Leaf? && Last(t).key == Order(t)[|Order(t)| - 1]
  {
    if t.Branch? {
      Ends(t.left);
      Ends(t.right);
    }
  }

  lemma ZeroPastEnd(k: Key, i: nat)
    requires i >= 8 * |k|
    ensures !Bit(k, i)
  {
    ZeroByte(i % 8);
  }

  lemma ZeroByte(p: nat)
    requires p < 8
    ensures !BitOf(0, p)
  {
  }

  /** Bytes that `strncmp` finds different: it goes on no further than a NUL that both keys have. */
  ghost predicate DifferSeen(a: Key, b: Key, i: nat) {
    i < |a| && i < |b| && a[..i] == b[..i] && 0 !in a[..i] && a[i] != b[i]
  }

  /** What `strnncmp(a, b) > 0` says: the first different bytes decide if they are seen, else the lengths. */
  ghost predicate ComesAfter(a: Key, b: Key) {
    if exists i: nat :: DifferSeen(a, b, i) then exists i: nat :: DifferSeen(a, b, i) && a[i] > b[i]
    else |a| > |b|
  }

  lemma SameBefore(a: Key, b: Key, i: nat, m: nat)
    requires m < i <= |a| && i <= |b| && a[..i] == b[..i]
    ensures a[m] == b[m] && a[m] in a[..i]
  {
    assert a[m] == a[..i][m] && b[m] == b[..i][m];
  }

  /** Only the first different bytes can be seen. */
  lemma SeenFirst(a: Key, b: Key, i: nat)
    requires i < |a| && i < |b| && a[..i] == b[..i] && a[i] != b[i]
    ensures forall j: nat :: DifferSeen(a, b, j) ==> j == i
  {
    forall j: nat | DifferSeen(a, b, j) && j != i
      ensures false
    {
      SameBefore(a, b, if i < j then j else i, if i < j then i else j);
    }
  }

  /** Behind a NUL both have, nothing is seen. */
  lemma SharedNulEnds(a: Key, b: Key, i: nat)
    requires i < |a| && i < |b| && a[..i] == b[..i] && a[i] == b[i] == 0
    ensures forall j: nat :: !DifferSeen(a, b, j)
  {
    forall j: nat | DifferSeen(a, b, j)
      ensures false
    {
      if j != i {
        SameBefore(a, b, if i < j then j else i, if i < j then i else j);
      }
    }
  }

  /** Of two different keys of one length, the greater one is recognized if and only if no NUL comes before
      their first different byte. */
  lemma AfterIff(a: Key, b: Key, i: nat)
    requires |a| == |b| && i < |a| && a[..i] == b[..i] && a[i] != b[i]
    ensures ComesAfter(a, b) <==> LexLess(b, a) && 0 !in a[..i]
  {
    assert forall m: nat :: m < i ==> a[m] == a[..i][m] && b[m] == b[..i][m];
    DifferAt(a, b, i);
    SeenFirst(a, b, i);
    assert 0 !in a[..i] ==> DifferSeen(a, b, i);
  }

  /** Two keys in order that the comparison takes for equal, because of the NUL they share. */
  lemma SharedNulHides()
    ensures LexLess([0, 1], [0, 2]) && !ComesAfter([0, 2], [0, 1]) && !ComesAfter([0, 1], [0, 2])
  {
    var a, b: Key := [0, 2], [0, 1];
    assert a[..1] == [0] && b[..1] == [0];
    assert 0 in a[..1] && 0 in b[..1];
    AfterIff(a, b, 1);
    AfterIff(b, a, 1);
    DifferAt(b, a, 1);
  }

  /** At the first different byte of two keys the order is decided. */
  lemma DifferAt(a: Key, b: Key, i: nat)
    requires i < |a| && i < |b| && a[i] != b[i]
    requires forall m: nat :: m < i ==> a[m] == b[m]
    ensures LexLess(a, b) <==> a[i] < b[i]
    ensures LexLess(b, a) <==> b[i] < a[i]
  {
    forall m: nat | m < i ensures ByteAt(a, m) == ByteAt(b, m) {}
    if LexLess(a, b) { LexAt(a, b, i); }
    if LexLess(b, a) { LexAt(b, a, i); }
    assert ByteAt(a, i) == a[i] && ByteAt(b, i) == b[i];
    assert a[i] < b[i] ==> LessAt(a, b, i);
    assert b[i] < a[i] ==> LessAt(b, a, i);
  }

  lemma LexAt(a: Key, b: Key, i: nat)
    requires LexLess(a, b) && i < |a| && i < |b|
    requires forall m: nat :: m < i ==> a[m] == b[m]
    requires a[i] != b[i]
    ensures a[i] < b[i]
  {
    var n: nat :| LessAt(a, b, n);
    assert ByteAt(a, i) == a[i] && ByteAt(b, i) == b[i];
    assert n <= i;
    assert forall m: nat :: m < i ==> ByteAt(a, m) == ByteAt(b, m);
  }

  // ----- the order, bit by bit

  lemma NeverBoth(a: Key, b: Key)
    requires LexLess(a, b)
    ensures !LexLess(b, a) && a != b
  {
    var n: nat :| LessAt(a, b, n);
    forall m: nat
      ensures !LessAt(b, a, m)
    {
      assert m < n ==> ByteAt(a, m) == ByteAt(b, m);
    }
  }

  lemma NotLessItself(a: Key)
    ensures !LexLess(a, a)
  {
  }

  /** The first different bit says which key is less. */
  lemma LexByBit(a: Key, b: Key, i: nat)
    requires IsFirstDiff(a, b, i)
    ensures LexLess(a, b) <==> !Bit(a, i)
    ensures LexLess(b, a) <==> Bit(a, i)
  {
    if Bit(a, i) {
      FirstDiffOrders(b, a, i);
      NeverBoth(b, a);
    } else {
      FirstDiffOrders(a, b, i);
      NeverBoth(a, b);
    }
  }

  /** Of two keys in order any third is after the one or before the other. */
  lemma EitherSide(a: Key, k: Key, b: Key)
    requires LexLess(a, b)
    ensures LexLess(a, k) || LexLess(k, b)
  {
    var n: nat :| LessAt(a, b, n);
    var i := 0;
    while i < n && ByteAt(k, i) == ByteAt(a, i)
      invariant i <= n && forall j: nat :: j < i ==> ByteAt(k, j) == ByteAt(a, j)
    {
      i := i + 1;
    }
    if ByteAt(a, i) < ByteAt(k, i) {
      assert LessAt(a, k, i);
    } else {
      assert LessAt(k, b, i);
    }
  }

  lemma OneOrTheOther(kind: Kind, a: Key, b: Key)
    requires OfKind(kind, a) && OfKind(kind, b)
    ensures a == b || LexLess(a, b) || LexLess(b, a)
  {
    if a != b {
      LexByBit(a, b, FirstDiff(kind, a, b));
    }
  }

  /** A key that seems to come after another does; and between strings, which hold no NUL, the comparison sees
      the whole order. */
  lemma AfterMeans(kind: Kind, a: Key, b: Key)
    requires OfKind(kind, a) && OfKind(kind, b)
    ensures ComesAfter(a, b) ==> LexLess(b, a)
    ensures kind.CString? ==> (ComesAfter(a, b) <==> LexLess(b, a))
  {
    var i := 0;
    while i < |a| && i < |b| && a[i] == b[i]
      invariant i <= |a| && i <= |b| && a[..i] == b[..i]
    {
      assert a[..i + 1] == a[..i] + [a[i]] && b[..i + 1] == b[..i] + [b[i]];
      i := i + 1;
    }
    if i < |a| && i < |b| {
      FirstByteDecides(kind, a, b, i);
    } else {
      forall j: nat | DifferSeen(a, b, j)
        ensures false
      {
        SameBefore(a, b, i, j);
      }
      if |a| < |b| {
        LongerIsMore(a, b);
        NeverBoth(a, b);
      } else if |b| < |a| {
        LongerIsMore(b, a);
      } else if LexLess(a, b) {
        NeverBoth(a, b);
      }
    }
  }

  lemma FirstByteDecides(kind: Kind, a: Key, b: Key, i: nat)
    requires OfKind(kind, a) && OfKind(kind, b)
    requires i < |a| && i < |b| && a[..i] == b[..i] && a[i] != b[i]
    ensures ComesAfter(a, b) ==> LexLess(b, a)
    ensures kind.CString? ==> (ComesAfter(a, b) <==> LexLess(b, a))
  {
    SeenFirst(a, b, i);
    assert forall m: nat :: m < i ==> a[m] == a[..i][m] && b[m] == b[..i][m];
    DifferAt(a, b, i);
    assert 0 !in a[..i] ==> DifferSeen(a, b, i);
  }

  lemma LongerIsMore(a: Key, b: Key)
    requires |a| < |b| && a == b[..|a|] && 0 !in b
    ensures LexLess(a, b)
  {
    var n := |a|;
    assert b[n] in b && ByteAt(a, n) < ByteAt(b, n);
    forall i: nat | i < n ensures ByteAt(a, i) == ByteAt(b, i) {
      assert b[..n][i] == b[i];
    }
    assert LessAt(a, b, n);
  }
}
