/** `findDifferingByte` and `findCriticalBit`: the first bit at which two keys differ. */
module CriticalBit {
  import opened Bits

  /** The reference: `i` is the first bit index at which the zero-padded keys differ. */
  ghost predicate IsFirstDiff(a: Key, b: Key, i: nat) {
    && Bit(a, i) != Bit(b, i)
    && forall j: nat :: j < i ==> Bit(a, j) == Bit(b, j)
  }

  ghost predicate AgreeBelow(a: Key, b: Key, n: nat) {
    forall j: nat :: j < n ==> Bit(a, j) == Bit(b, j)
  }

  lemma XorBit(x: bv8, y: bv8, p: nat)
    requires p < 8
    ensures BitOf(x ^ y, p) == (BitOf(x, p) != BitOf(y, p))
  {
    MaskIsOneBit(p);
    XorMask(x, y, Mask(p));
  }

  lemma MaskIsOneBit(p: nat)
    requires p < 8
    ensures Mask(p) & (Mask(p) - 1) == 0
  {
  }

  lemma XorMask(x: bv8, y: bv8, m: bv8)
    requires m & (m - 1) == 0
    ensures ((x ^ y) & m != 0) == ((x & m != 0) != (y & m != 0))
  {
  }

  /** The byte-level search result pins down the first differing bit. */
  lemma FirstDiffFromByte(a: Key, b: Key, byte: nat)
    requires forall i: nat :: i < byte ==> ByteAt(a, i) == ByteAt(b, i)
    requires ByteAt(a, byte) != ByteAt(b, byte)
    ensures IsOther(Isolate(ByteAt(a, byte) ^ ByteAt(b, byte)))
    ensures IsFirstDiff(a, b, Index(byte, Isolate(ByteAt(a, byte) ^ ByteAt(b, byte))))
  {
    hide Isolate, BitOf;
    var x, y := ByteAt(a, byte), ByteAt(b, byte);
    XorNonZero(x, y);
    IsolateHighest(x ^ y);
    var p := PosOf(Isolate(x ^ y));
    XorBit(x, y, p);
    forall q: nat | q < p
      ensures BitOf(x, q) == BitOf(y, q)
    {
      XorBit(x, y, q);
    }
    FirstDiffAt(a, b, byte, p);
  }

  lemma XorNonZero(x: bv8, y: bv8)
    requires x != y
    ensures x ^ y != 0
  {
  }

  /** The first differing bit of the first differing byte. */
  lemma FirstDiffAt(a: Key, b: Key, byte: nat, p: nat)
    requires forall i: nat :: i < byte ==> ByteAt(a, i) == ByteAt(b, i)
    requires p < 8 && BitOf(ByteAt(a, byte), p) != BitOf(ByteAt(b, byte), p)
    requires forall q: nat :: q < p ==> BitOf(ByteAt(a, byte), q) == BitOf(ByteAt(b, byte), q)
    ensures IsFirstDiff(a, b, 8 * byte + p)
  {
    hide BitOf, ByteAt;
    var n := 8 * byte + p;
    assert n / 8 == byte && n % 8 == p;
    forall j: nat | j < n
      ensures Bit(a, j) == Bit(b, j)
    {
      assert j / 8 < byte || (j / 8 == byte && j % 8 < p);
    }
  }

  /** Distinct keys of one kind have different bits: padding with zeros confuses no two of them. */
  lemma KindSeparates(kind: Kind, a: Key, b: Key)
    requires OfKind(kind, a) && OfKind(kind, b)
    requires a != b
    ensures exists i: nat :: Bit(a, i) != Bit(b, i)
  {
    var w: nat;
    if |a| < |b| {
      assert b[|a|] in b;
      w := |a|;
    } else if |b| < |a| {
      assert a[|b|] in a;
      w := |b|;
    } else {
      w :| w < |a| && a[w] != b[w];
    }
    var byte := FirstByte(a, b, w);
    FirstDiffFromByte(a, b, byte);
  }

  lemma FirstByte(a: Key, b: Key, w: nat) returns (byte: nat)
    requires ByteAt(a, w) != ByteAt(b, w)
    ensures ByteAt(a, byte) != ByteAt(b, byte)
    ensures forall i: nat :: i < byte ==> ByteAt(a, i) == ByteAt(b, i)
  {
    byte := 0;
    while ByteAt(a, byte) == ByteAt(b, byte)
      invariant byte <= w
      invariant forall i: nat :: i < byte ==> ByteAt(a, i) == ByteAt(b, i)
      decreases w - byte
    {
      byte := byte + 1;
    }
  }

  lemma FirstDiffUnique(a: Key, b: Key, i: nat, j: nat)
    requires IsFirstDiff(a, b, i) && IsFirstDiff(a, b, j)
    ensures i == j
  {
  }

  /** A differing bit of two n-byte keys lies inside them. */
  lemma BitsWithinKey(a: Key, b: Key, i: nat, n: nat)
    requires |a| <= n && |b| <= n
    requires Bit(a, i) != Bit(b, i)
    ensures i < 8 * n
  {
  }

  method FindDifferingByte(kind: Kind, p: Key, key: Key) returns (found: bool, newbyte: nat, diff: bv8)
    requires OfKind(kind, p) && OfKind(kind, key)
    ensures found <==> p != key
    ensures found ==> newbyte <= |p| && (kind.Fixed? ==> newbyte < |p|)
    ensures found ==> diff == ByteAt(p, newbyte) ^ ByteAt(key, newbyte) && diff != 0
    ensures found ==> forall i: nat :: i < newbyte ==> ByteAt(p, i) == ByteAt(key, i)
  {
    newbyte := 0;
    diff := 0;
    while newbyte < |key|
      invariant newbyte <= |key| && newbyte <= |p|
      invariant forall i: nat :: i < newbyte ==> p[i] == key[i]
    {
      assert kind.CString? ==> key[newbyte] in key;
      if Read(kind, p, newbyte) != Read(kind, key, newbyte) {
        diff := Read(kind, p, newbyte) ^ Read(kind, key, newbyte);
        found := true;
        assert diff != 0;
        assert newbyte < |p| ==> p[newbyte] != key[newbyte];
        return;
      }
      newbyte := newbyte + 1;
    }
    if newbyte < |p| {
      assert kind.CString? && p[newbyte] in p;
      diff := Read(kind, p, newbyte);
      assert diff ^ 0 == diff;
      found := true;
      return;
    }
    assert p == key;
    found := false;
  }

  /** The critical bit of two keys, as (byte, inverted mask), and `p`'s value of it. */
  method FindCriticalBit(kind: Kind, p: Key, key: Key)
    returns (found: bool, newbyte: nat, newotherbits: OtherBits, newdirection: bool)
    requires OfKind(kind, p) && OfKind(kind, key)
    ensures found <==> p != key
    ensures found ==> IsFirstDiff(p, key, Index(newbyte, newotherbits))
    ensures found ==> newdirection == Bit(p, Index(newbyte, newotherbits))
    ensures found ==> newbyte <= |p| && (kind.Fixed? ==> newbyte < |p|)
  {
    var diff;
    newotherbits, newdirection := 0x7F, false;
    found, newbyte, diff := FindDifferingByte(kind, p, key);
    if !found {
      return;
    }
    FirstDiffFromByte(p, key, newbyte);
    newotherbits := Isolate(diff);
    newdirection := Direction(newotherbits, Read(kind, p, newbyte));
    DirectionIsBit(newotherbits, ByteAt(p, newbyte));
    assert Index(newbyte, newotherbits) / 8 == newbyte && Index(newbyte, newotherbits) % 8 == PosOf(newotherbits);
  }

  /** `calculateDirection`: the key's critical bit, zero past its end. */
  function CalculateDirection(byte: nat, otherbits: OtherBits, key: Key): (d: bool)
    ensures d == Bit(key, Index(byte, otherbits))
  {
    DirectionIsBit(otherbits, if byte < |key| then key[byte] else 0);
    assert Index(byte, otherbits) / 8 == byte && Index(byte, otherbits) % 8 == PosOf(otherbits);
    Direction(otherbits, if byte < |key| then key[byte] else 0)
  }

  /** The comparison the insert walk makes: does this branch lie below the new critical bit? */
  predicate BranchAfter(byte: nat, otherbits: OtherBits, newbyte: nat, newotherbits: OtherBits) {
    byte > newbyte || (byte == newbyte && otherbits > newotherbits)
  }

  lemma BranchAfterIsIndexOrder(byte: nat, otherbits: OtherBits, newbyte: nat, newotherbits: OtherBits)
    ensures BranchAfter(byte, otherbits, newbyte, newotherbits) <==>
            Index(byte, otherbits) > Index(newbyte, newotherbits)
  {
    OtherBitsOrder(otherbits, newotherbits);
  }
}
