/** 64-bit facts about masks, by themselves. */
module MaskBits {

  function And(x: bv64, y: bv64): bv64 { x & y }

  function Xor(x: bv64, y: bv64): bv64 { x ^ y }

  function Or(x: bv64, y: bv64): bv64 { x | y }

  /** `hashsize`. */
  function Size(m: bv64): bv64 { m + 1 }

  /** 2x + 1: the mask of a table twice as large. */
  function Doubled(m: bv64): bv64 { (m << 1) | 1 }

  /** The index `hashsize` above `b`. */
  function Above(m: bv64, b: bv64): bv64 { Plus(b, Size(m)) }

  function Plus(x: bv64, y: bv64): bv64 { x + y }

  /** A mask of low-order ones, with room to double. */
  predicate LowOnes(m: bv64) {
    m & (m + 1) == 0 && m < 0x8000_0000_0000_0000
  }

  lemma MaskOdd(m: bv64)
    requires LowOnes(m) && m != 0
    ensures m & 1 == 1
  {
  }

  lemma OddMoves(m: bv64, i: bv64, t: bv64)
    requires t & 1 == 1 && m & 1 == 1 && And(i, m) == i
    ensures And(Xor(i, t), m) != i
  {
  }

  lemma AndTwice(x: bv64, m: bv64)
    ensures And(And(x, m), m) == And(x, m)
  {
  }

  lemma XorTwice(m: bv64, i: bv64, t: bv64)
    requires And(i, m) == i
    ensures And(Xor(And(Xor(i, t), m), t), m) == i
  {
    XorTwiceBits(m, i, t);
  }

  lemma XorTwiceBits(m: bv64, i: bv64, t: bv64)
    requires i & m == i
    ensures (((i ^ t) & m) ^ t) & m == i
  {
  }

  lemma DoubledMask(m: bv64)
    requires LowOnes(m)
    ensures And(Doubled(m), m) == m
  {
  }

  lemma IndexGrows(m: bv64, n: bv64, hv: bv64)
    requires And(n, m) == m
    ensures And(And(hv, n), m) == And(hv, m)
  {
  }

  lemma AltGrows(m: bv64, n: bv64, hv: bv64, t: bv64)
    requires And(n, m) == m
    ensures And(And(Xor(And(hv, n), t), n), m) == And(Xor(And(hv, m), t), m)
  {
    AltGrowsBits(m, n, hv, t);
  }

  lemma AltGrowsBits(m: bv64, n: bv64, hv: bv64, t: bv64)
    requires n & m == m
    ensures (((hv & n) ^ t) & n) & m == ((hv & m) ^ t) & m
  {
  }

  lemma LowerOrUpper(m: bv64, b: bv64)
    requires LowOnes(m)
    requires And(b, Doubled(m)) == b
    ensures b == And(b, m) || b == Above(m, And(b, m))
  {
    hide And, Or, Doubled, Above, LowOnes, Size;
    DoubledIsOr(m);
    SplitBits(m, Size(m), b);
    OneBit(m, b);
    OrIsPlus(m, b);
  }

  lemma DoubledIsOr(m: bv64)
    requires LowOnes(m)
    ensures Doubled(m) == Or(m, Size(m))
  {
  }

  lemma SplitBits(m: bv64, s: bv64, b: bv64)
    requires And(b, Or(m, s)) == b
    ensures b == Or(And(b, m), And(b, s))
    ensures And(b, s) == 0 ==> b == And(b, m)
  {
  }

  lemma OneBit(m: bv64, b: bv64)
    requires LowOnes(m)
    ensures And(b, Size(m)) == 0 || And(b, Size(m)) == Size(m)
  {
  }

  lemma OrIsPlus(m: bv64, b: bv64)
    requires LowOnes(m)
    ensures Or(And(b, m), Size(m)) == Above(m, And(b, m))
  {
    hide And, Or, Plus, Size, LowOnes;
    MaskApart(m);
    ApartBelow(b, m, Size(m));
    PlusIsOr(And(b, m), Size(m));
  }

  lemma MaskApart(m: bv64)
    requires LowOnes(m)
    ensures And(m, Size(m)) == 0
  {
  }

  lemma ApartBelow(b: bv64, m: bv64, s: bv64)
    requires And(m, s) == 0
    ensures And(And(b, m), s) == 0
  {
  }

  /** Without common bits, nothing is carried. */
  lemma PlusIsOr(x: bv64, s: bv64)
    requires And(x, s) == 0
    ensures Or(x, s) == Plus(x, s)
  {
    PlusIsOrBits(x, s);
  }

  lemma PlusIsOrBits(x: bv64, s: bv64)
    requires x & s == 0
    ensures x | s == x + s
  {
  }

  lemma AboveIsOr(m: bv64, b: bv64)
    requires LowOnes(m) && And(b, m) == b
    ensures Above(m, b) == Or(b, Size(m))
  {
    hide And, Or, Above, LowOnes, Size;
    OrIsPlus(m, b);
  }

  lemma AboveInRange(m: bv64, b: bv64)
    requires LowOnes(m) && And(b, m) == b
    ensures And(Above(m, b), Doubled(m)) == Above(m, b)
  {
    hide And, Or, Above, LowOnes, Size, Doubled;
    AboveIsOr(m, b);
    DoubledIsOr(m);
    OrKept(m, b, Size(m));
  }

  lemma OrKept(m: bv64, b: bv64, s: bv64)
    requires And(b, m) == b
    ensures And(Or(b, s), Or(m, s)) == Or(b, s)
  {
  }

  lemma AboveBase(m: bv64, b: bv64)
    requires LowOnes(m) && And(b, m) == b
    ensures And(Above(m, b), m) == b
  {
    hide And, Or, Above, LowOnes, Size;
    AboveIsOr(m, b);
    MaskApart(m);
    OrMasked(m, b, Size(m));
  }

  lemma OrMasked(m: bv64, b: bv64, s: bv64)
    requires And(b, m) == b && And(m, s) == 0
    ensures And(Or(b, s), m) == b
  {
  }

  lemma AboveDiffers(m: bv64, b: bv64)
    requires LowOnes(m) && And(b, m) == b
    ensures Above(m, b) != b
  {
  }

  lemma SubMask(m: bv64, n: bv64, b: bv64)
    requires And(b, m) == b && And(n, m) == m
    ensures And(b, n) == b
  {
  }
}

/** The two buckets of a key: arithmetic on 64-bit hashes. A table of hashpower hp has the bucket mask
    2^hp - 1. */
module CuckooIndex {
  import opened MaskBits

  /** A `size_t`: a hash, a mask, or a bucket's index. */
  datatype Word = Word(bits: bv64)

  /** A partial key, a `char`. */
  datatype Tag = Tag(bits: bv8)

  predicate IsMask(m: Word) {
    LowOnes(m.bits)
  }

  /** `hashmask(hp + 1)` from `hashmask(hp)`. */
  function NextMask(m: Word): Word {
    Word(Doubled(m.bits))
  }

  /** The bucket `hashsize(hp)` above `b`, which exists after doubling. */
  function Upper(m: Word, b: Word): Word {
    Word(Above(m.bits, b.bits))
  }

  predicate InRange(m: Word, b: Word) {
    IndexHash(m, b) == b
  }

  function IndexHash(m: Word, hv: Word): Word {
    Word(And(hv.bits, m.bits))
  }

  /** `partial_key`: the top byte of the hash. */
  function PartialKey(hv: Word): Tag {
    Tag((hv.bits >> 56) as bv8)
  }

  /** The tag made odd, sign-extended as a `char` is, times the hash constant. */
  function TagHash(partial: Tag): bv64 {
    var tag := ((partial.bits >> 1) << 1) + 1;
    var wide: bv64 := if tag & 0x80 == 0 then tag as bv64 else (tag as bv64) | 0xFFFF_FFFF_FFFF_FF00;
    wide * 0xc6a4_a793_5bd1_e995
  }

  function AltIndex(m: Word, partial: Tag, index: Word): Word {
    Word(And(Xor(index.bits, TagHash(partial)), m.bits))
  }

  lemma IndexInRange(m: Word, hv: Word)
    ensures InRange(m, IndexHash(m, hv))
  {
    hide And;
    AndTwice(hv.bits, m.bits);
  }

  lemma AltInRange(m: Word, partial: Tag, index: Word)
    ensures InRange(m, AltIndex(m, partial, index))
  {
    hide And, Xor, TagHash;
    AndTwice(Xor(index.bits, TagHash(partial)), m.bits);
  }

  /** The tag counts as a signed byte: made odd, 0 is 1, the largest is -1, and 0x80 is -127. */
  lemma SignedTags()
    ensures TagHash(Tag(0)) == 0xc6a4_a793_5bd1_e995
    ensures TagHash(Tag(0xFF)) == 0 - 0xc6a4_a793_5bd1_e995
    ensures TagHash(Tag(0x80)) == 0 - 127 * 0xc6a4_a793_5bd1_e995
    ensures TagHash(Tag(0x7F)) == 127 * 0xc6a4_a793_5bd1_e995
  {
  }

  /** The tag is made odd for this: a key's two buckets differ in every table of two buckets or more. */
  lemma OtherBucket(m: Word, partial: Tag, index: Word)
    requires IsMask(m) && m.bits != 0 && InRange(m, index)
    ensures AltIndex(m, partial, index) != index
  {
    hide TagHash, And, Xor, LowOnes;
    TagHashOdd(partial);
    MaskOdd(m.bits);
    OddMoves(m.bits, index.bits, TagHash(partial));
  }

  lemma TagHashOdd(partial: Tag)
    ensures TagHash(partial) & 1 == 1
  {
  }

  /** `alt_index` is an involution on the buckets of a table, whatever its size. */
  lemma AltIndexInvolution(m: Word, partial: Tag, index: Word)
    requires InRange(m, index)
    ensures AltIndex(m, partial, AltIndex(m, partial, index)) == index
  {
    hide And, Xor, TagHash;
    XorTwice(m.bits, index.bits, TagHash(partial));
  }

  /** Doubling adds one bit on top of both indices. */
  lemma IndexGrows(m: Word, hv: Word)
    requires IsMask(m)
    ensures IndexHash(m, IndexHash(NextMask(m), hv)) == IndexHash(m, hv)
  {
    hide And, Doubled, LowOnes;
    DoubledMask(m.bits);
    MaskBits.IndexGrows(m.bits, Doubled(m.bits), hv.bits);
  }

  lemma AltIndexGrows(m: Word, hv: Word, partial: Tag)
    requires IsMask(m)
    ensures IndexHash(m, AltIndex(NextMask(m), partial, IndexHash(NextMask(m), hv))) ==
            AltIndex(m, partial, IndexHash(m, hv))
  {
    hide And, Xor, Doubled, LowOnes, TagHash;
    DoubledMask(m.bits);
    AltGrows(m.bits, Doubled(m.bits), hv.bits, TagHash(partial));
  }

  /** So a bucket of the doubled table is an old bucket or lies exactly the old size above one. */
  lemma TwoHomes(m: Word, b: Word)
    requires IsMask(m) && InRange(NextMask(m), b)
    ensures b == IndexHash(m, b) || b == Upper(m, IndexHash(m, b))
  {
    hide And, Doubled, Above, LowOnes;
    LowerOrUpper(m.bits, b.bits);
  }

  lemma UpperBucket(m: Word, b: Word)
    requires IsMask(m) && InRange(m, b)
    ensures InRange(NextMask(m), Upper(m, b))
    ensures IndexHash(m, Upper(m, b)) == b
    ensures Upper(m, b) != b
  {
    hide And, Doubled, Above, LowOnes;
    AboveInRange(m.bits, b.bits);
    AboveBase(m.bits, b.bits);
    AboveDiffers(m.bits, b.bits);
  }

  lemma LowerBucket(m: Word, b: Word)
    requires IsMask(m) && InRange(m, b)
    ensures InRange(NextMask(m), b)
  {
    hide And, Doubled, LowOnes;
    DoubledMask(m.bits);
    SubMask(m.bits, Doubled(m.bits), b.bits);
  }
}
