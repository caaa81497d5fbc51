/** Queries by bit prefix: the pure walks, and what their leaf sets are. */
module PrefixQuery {
  import opened Bits
  import opened CriticalBit
  import opened CritTree

  /** 2^j - 1: a mask over the low `j` bits of a prefix's last byte, which are to be ignored. */
  function LowMask(j: nat): bv8
    requires j <= 8
  {
    match j
    case 0 => 0x00 case 1 => 0x01 case 2 => 0x03 case 3 => 0x07 case 4 => 0x0F
    case 5 => 0x1F case 6 => 0x3F case 7 => 0x7F case 8 => 0xFF
  }

  /** The number of prefix bits that (bitmask 2^j - 1, keylen) stands for. */
  function PrefixBits(j: nat, keylen: nat): nat
    requires j <= 8
  {
    if keylen == 0 then 0 else 8 * keylen - j
  }

  /** The stopping test of `nearest_subtree`. */
  predicate StopsAt(byte: nat, otherbits: OtherBits, bitmask: bv8, keylen: nat) {
    byte + 1 >= keylen && (byte >= keylen || (otherbits ^ 0xFF) & bitmask > 0)
  }

  lemma MaskedBit(b: OtherBits, j: nat)
    requires j <= 8
    ensures (b ^ 0xFF) & LowMask(j) > 0 <==> PosOf(b) >= 8 - j
  {
    assert IsOther(b);
  }

  /** It stops at the first branch whose critical bit is not inside the prefix. */
  lemma StopsAtPrefix(byte: nat, otherbits: OtherBits, j: nat, keylen: nat)
    requires j <= 8
    ensures StopsAt(byte, otherbits, LowMask(j), keylen) <==> Index(byte, otherbits) >= PrefixBits(j, keylen)
  {
    MaskedBit(otherbits, j);
  }

  function Nearest<V>(t: Tree<V>, key: Key, bits: nat): Tree<V> {
    if t.Branch? && t.bit < bits then Nearest(t.Child(Bit(key, t.bit)), key, bits) else t
  }

  /** Every stored key with the prefix is below the node the walk stops at, and the keys there
      share one prefix: checking a single leaf decides. */
  lemma {:induction false} NearestHoldsPrefix<V>(t: Tree<V>, key: Key, bits: nat)
    requires Wf(t)
    ensures Wf(Nearest(t, key, bits)) && Keys(Nearest(t, key, bits)) <= Keys(t)
    ensures forall k :: k in Keys(t) && AgreeBelow(k, key, bits) ==> k in Keys(Nearest(t, key, bits))
    ensures forall k, k' :: k in Keys(Nearest(t, key, bits)) && k' in Keys(Nearest(t, key, bits)) ==>
              AgreeBelow(k, k', bits)
    ensures Nearest(t, key, bits).Branch? ==> Nearest(t, key, bits).bit >= bits
  {
    if t.Branch? && t.bit < bits {
      NearestHoldsPrefix(t.Child(Bit(key, t.bit)), key, bits);
    }
  }

  /** For a prefix that no stored key need have, the node holds exactly the keys that share that many bits with the
      key's best match. */
  lemma NearestIs<V>(t: Tree<V>, key: Key, bits: nat)
    requires Wf(t)
    ensures Best(t, key).Leaf?
    ensures Keys(Nearest(t, key, bits)) == set k | k in Keys(t) && AgreeBelow(k, Best(t, key).key, bits)
  {
    BestIsLeaf(t, key);
    NearestHoldsPrefix(t, key, bits);
    BestBelow(t, key, bits);
    NearestHolds(t, key, Best(t, key).key, bits);
  }

  lemma {:induction false} BestBelow<V>(t: Tree<V>, key: Key, bits: nat)
    ensures Best(Nearest(t, key, bits), key) == Best(t, key)
    ensures Best(t, key).Leaf? && Best(t, key).key in Keys(Nearest(t, key, bits))
  {
    if t.Branch? && t.bit < bits {
      BestBelow(t.Child(Bit(key, t.bit)), key, bits);
    } else {
      BestIsLeaf(t, key);
    }
  }

  /** All keys that agree with one of the node's keys on the prefix are in the node. */
  lemma {:induction false} NearestHolds<V>(t: Tree<V>, key: Key, leaf: Key, bits: nat)
    requires Wf(t) && leaf in Keys(Nearest(t, key, bits))
    ensures forall k :: k in Keys(t) && AgreeBelow(k, leaf, bits) ==> k in Keys(Nearest(t, key, bits))
  {
    if t.Branch? && t.bit < bits {
      var c := t.Child(Bit(key, t.bit));
      NearestHoldsPrefix(c, key, bits);
      NearestHolds(c, key, leaf, bits);
    }
  }

  /** No stored key shares more leading bits with a key than its best match. */
  lemma BestIsClosest<V>(t: Tree<V>, key: Key, k: Key, n: nat)
    requires Wf(t) && k in Keys(t) && AgreeBelow(k, key, n)
    ensures Best(t, key).Leaf? && AgreeBelow(Best(t, key).key, key, n)
  {
    NearestHoldsPrefix(t, key, n);
    BestBelow(t, key, n);
    assert AgreeBelow(Best(t, key).key, k, n);
  }

  lemma PrefixAll<V>(t: Tree<V>, key: Key, bits: nat, leaf: Key)
    requires Wf(t) && leaf in Keys(Nearest(t, key, bits))
    ensures AgreeBelow(leaf, key, bits) ==>
              Keys(Nearest(t, key, bits)) == set k | k in Keys(t) && AgreeBelow(k, key, bits)
    ensures !AgreeBelow(leaf, key, bits) ==> forall k :: k in Keys(t) ==> !AgreeBelow(k, key, bits)
  {
    NearestHoldsPrefix(t, key, bits);
    var s := Nearest(t, key, bits);
    forall k | k in Keys(t) && AgreeBelow(k, key, bits)
      ensures AgreeBelow(leaf, key, bits)
    {
      assert AgreeBelow(k, leaf, bits);
    }
    forall k | k in Keys(s) && AgreeBelow(leaf, key, bits)
      ensures AgreeBelow(k, key, bits)
    {
      assert AgreeBelow(k, leaf, bits);
    }
  }

  /** The leftmost and rightmost leaves. */
  function First<V>(t: Tree<V>): Tree<V> {
    if t.Leaf? then t else First(t.left)
  }

  function Last<V>(t: Tree<V>): Tree<V> {
    if t.Leaf? then t else Last(t.right)
  }

  lemma {:induction false} FirstIsLeaf<V>(t: Tree<V>)
    ensures First(t).Leaf? && First(t).key in Keys(t)
  {
    if t.Branch? {
      FirstIsLeaf(t.left);
    }
  }

  lemma {:induction false} LastIsLeaf<V>(t: Tree<V>)
    ensures Last(t).Leaf? && Last(t).key in Keys(t)
  {
    if t.Branch? {
      LastIsLeaf(t.right);
    }
  }

  /** The byte-wise check of `subtree`: whole bytes, then the last one under the mask. */
  ghost predicate BytesMatch(a: Key, b: Key, j: nat, keylen: nat)
    requires j <= 8
  {
    keylen == 0 ||
    ((forall i: nat :: i < keylen - 1 ==> ByteAt(a, i) == ByteAt(b, i)) &&
     (ByteAt(a, keylen - 1) ^ ByteAt(b, keylen - 1)) & !LowMask(j) == 0)
  }

  lemma MaskedEqual(x: bv8, y: bv8, j: nat)
    requires j <= 8
    ensures (x ^ y) & !LowMask(j) == 0 <==> forall p: nat :: p < 8 - j ==> BitOf(x, p) == BitOf(y, p)
  {
    hide Isolate, BitOf, LowMask;
    var d := x ^ y;
    if d & !LowMask(j) == 0 {
      forall p: nat | p < 8 - j
        ensures BitOf(x, p) == BitOf(y, p)
      {
        XorBit(x, y, p);
        MaskOutside(d, j, p);
      }
    } else {
      IsolateHighest(d & !LowMask(j));
      var p := PosOf(Isolate(d & !LowMask(j)));
      XorBit(x, y, p);
      MaskInside(d, j, p);
    }
  }

  lemma MaskOutside(d: bv8, j: nat, p: nat)
    requires j <= 8 && p < 8 - j
    requires d & !LowMask(j) == 0
    ensures !BitOf(d, p)
  {
  }

  lemma MaskInside(d: bv8, j: nat, p: nat)
    requires j <= 8 && p < 8
    requires BitOf(d & !LowMask(j), p)
    ensures BitOf(d, p) && p < 8 - j
  {
  }

  /** It decides agreement on the prefix bits. */
  lemma BytesMatchIsAgreement(a: Key, b: Key, j: nat, keylen: nat)
    requires j <= 8
    ensures BytesMatch(a, b, j, keylen) <==> AgreeBelow(a, b, PrefixBits(j, keylen))
  {
    hide BytesMatch, AgreeBelow;
    if keylen == 0 {
      NoBytes(a, b, j);
    } else if BytesMatch(a, b, j, keylen) {
      MatchAgrees(a, b, j, keylen);
    } else if AgreeBelow(a, b, PrefixBits(j, keylen)) {
      AgreeMatches(a, b, j, keylen);
    }
  }

  lemma NoBytes(a: Key, b: Key, j: nat)
    requires j <= 8
    ensures BytesMatch(a, b, j, 0) && AgreeBelow(a, b, 0)
  {
  }

  lemma MatchAgrees(a: Key, b: Key, j: nat, keylen: nat)
    requires j <= 8 && keylen > 0 && BytesMatch(a, b, j, keylen)
    ensures AgreeBelow(a, b, 8 * keylen - j)
  {
    hide BitOf, LowMask, ByteAt;
    MaskedEqual(ByteAt(a, keylen - 1), ByteAt(b, keylen - 1), j);
    forall i: nat | i < 8 * keylen - j
      ensures Bit(a, i) == Bit(b, i)
    {
      assert i / 8 < keylen - 1 || (i / 8 == keylen - 1 && i % 8 < 8 - j);
    }
  }

  lemma AgreeMatches(a: Key, b: Key, j: nat, keylen: nat)
    requires j <= 8 && keylen > 0 && AgreeBelow(a, b, 8 * keylen - j)
    ensures BytesMatch(a, b, j, keylen)
  {
    hide BitOf, LowMask, ByteAt;
    forall i: nat | i < keylen - 1
      ensures ByteAt(a, i) == ByteAt(b, i)
    {
      ByteFromBits(a, b, i);
    }
    var n := keylen - 1;
    var x, y := ByteAt(a, n), ByteAt(b, n);
    forall p: nat | p < 8 - j
      ensures BitOf(x, p) == BitOf(y, p)
    {
      BitOfByte(a, n, p);
      BitOfByte(b, n, p);
      assert Bit(a, 8 * n + p) == Bit(b, 8 * n + p);
    }
    MaskedEqual(x, y, j);
  }

  lemma BitOfByte(k: Key, n: nat, p: nat)
    requires p < 8
    ensures Bit(k, 8 * n + p) == BitOf(ByteAt(k, n), p)
  {
  }

  lemma ByteFromBits(a: Key, b: Key, i: nat)
    requires AgreeBelow(a, b, 8 * i + 8)
    ensures ByteAt(a, i) == ByteAt(b, i)
  {
    var x, y := ByteAt(a, i), ByteAt(b, i);
    forall p: nat | p < 8
      ensures BitOf(x, p) == BitOf(y, p)
    {
      assert Bit(a, 8 * i + p) == Bit(b, 8 * i + p);
    }
    MaskedEqual(x, y, 0);
    NoMask(x, y);
  }

  lemma NoMask(x: bv8, y: bv8)
    requires (x ^ y) & !LowMask(0) == 0
    ensures x == y
  {
  }
}
