/** Keys as byte strings, their bits, and the byte tricks the crit-bit tree uses on them.
    Bit 0 is the most significant bit of byte 0; bits past the end of a key read as zero. */
module Bits {
  type Key = seq<bv8>

  /** The two kinds of key the tree is instantiated with: a fixed number of raw bytes, or a
      NUL-terminated string (whose bytes are all non-zero and whose terminator may be read). */
  datatype Kind = Fixed(size: nat) | CString

  predicate OfKind(kind: Kind, k: Key) {
    match kind
    case Fixed(n) => |k| == n
    case CString => 0 !in k
  }

  /** Reading byte `i` of a key through its pointer; a C string may be read at its terminator. */
  function Read(kind: Kind, k: Key, i: nat): bv8
    requires i < |k| || (kind.CString? && i == |k|)
  {
    ByteAt(k, i)
  }

  function ByteAt(k: Key, i: nat): bv8 {
    if i < |k| then k[i] else 0
  }

  function Mask(pos: nat): bv8
    requires pos < 8
  {
    match pos
    case 0 => 0x80 case 1 => 0x40 case 2 => 0x20 case 3 => 0x10
    case 4 => 0x08 case 5 => 0x04 case 6 => 0x02 case 7 => 0x01
  }

  predicate BitOf(c: bv8, pos: nat)
    requires pos < 8
  {
    c & Mask(pos) != 0
  }

  predicate Bit(k: Key, i: nat) {
    BitOf(ByteAt(k, i / 8), i % 8)
  }

  /** A branch stores its critical bit inverted: every bit but that one is set. */
  predicate IsOther(b: bv8) {
    b == 0x7F || b == 0xBF || b == 0xDF || b == 0xEF || b == 0xF7 || b == 0xFB || b == 0xFD || b == 0xFE
  }

  type OtherBits = b: bv8 | IsOther(b) witness 0x7F

  function PosOf(b: OtherBits): (pos: nat)
    ensures pos < 8 && b == 0xFF ^ Mask(pos)
  {
    assert IsOther(b);
    if b == 0x7F then 0 else if b == 0xBF then 1 else if b == 0xDF then 2 else if b == 0xEF then 3
    else if b == 0xF7 then 4 else if b == 0xFB then 5 else if b == 0xFD then 6 else 7
  }

  /** The critical bit's index in the key. */
  function Index(byte: nat, otherbits: OtherBits): nat {
    8 * byte + PosOf(otherbits)
  }

  /** `direction`: adding one to (bits | c) carries into bit 8 exactly when c has the critical bit. */
  function Direction(bits: bv8, c: bv8): bool {
    (1 + ((bits | c) as bv16)) >> 8 == 1
  }

  lemma DirectionIsBit(b: OtherBits, c: bv8)
    ensures Direction(b, c) == BitOf(c, PosOf(b))
  {
    assert Direction(b, c) == (b | c == 0xFF);
    assert (b | c == 0xFF) == (c & (0xFF ^ b) != 0) by {
      OrFills(b, c);
    }
    assert b ^ 0xFF == Mask(PosOf(b));
  }

  lemma OrFills(b: OtherBits, c: bv8)
    ensures (b | c == 0xFF) == (c & (0xFF ^ b) != 0)
  {
    assert IsOther(b);
  }

  /** The inverted form orders branches in the same byte by their critical bit. */
  lemma OtherBitsOrder(a: OtherBits, b: OtherBits)
    ensures a > b <==> PosOf(a) > PosOf(b)
    ensures a == b <==> PosOf(a) == PosOf(b)
  {
  }

  /** The smear-and-isolate sequence of `findCriticalBit`. */
  function Isolate(x: bv8): bv8 {
    var x1 := x | (x >> 1);
    var x2 := x1 | (x1 >> 2);
    var x3 := x2 | (x2 >> 4);
    (x3 & !(x3 >> 1)) ^ 0xFF
  }

  /** It yields the inverted highest set bit. */
  lemma IsolateHighest(x: bv8)
    requires x != 0
    ensures IsOther(Isolate(x))
    ensures BitOf(x, PosOf(Isolate(x)))
    ensures forall q: nat :: q < PosOf(Isolate(x)) ==> !BitOf(x, q)
  {
    assert Isolate(x) ==
      if x & 0x80 != 0 then 0x7F else if x & 0x40 != 0 then 0xBF else if x & 0x20 != 0 then 0xDF
      else if x & 0x10 != 0 then 0xEF else if x & 0x08 != 0 then 0xF7 else if x & 0x04 != 0 then 0xFB
      else if x & 0x02 != 0 then 0xFD else 0xFE;
    assert x & 0xFE == 0 ==> x == 1;
  }
}
