/** A table in which the search misses a path: eight buckets of four slots, the first five of them full, in which
    every item could go to the next bucket and nowhere else. */
module MissedPath {
  import opened CuckooIndex
  import opened Cuckoo
  import opened CuckooSearch
  import opened SearchOrder
  import opened SearchReach

  function Bucket(b: nat): Word {
    if b == 0 then Word(0) else if b == 1 then Word(1) else if b == 2 then Word(2) else if b == 3 then Word(3)
    else if b == 4 then Word(4) else Word(5)
  }

  /** Keys 4b to 4b + 3 lie in bucket b; key 20 is the one to be inserted. */
  function HashOf(key: nat): Word {
    if key / 4 == 1 then Word(0x0600_0000_0000_0001)
    else if key / 4 == 2 then Word(0x0400_0000_0000_0002)
    else if key / 4 == 3 then Word(0x0200_0000_0000_0003)
    else if key / 4 == 4 then Word(0x0400_0000_0000_0004)
    else Word(0x0400_0000_0000_0000)
  }

  function PartialAt(b: nat): Tag {
    if b == 1 then Tag(6) else if b == 3 then Tag(2) else Tag(4)
  }

  ghost function Items(): map<Place, Entry<nat, int>> {
    map b: nat, s: nat | b < 5 && s < 4 :: (Bucket(b), s) := Entry(4 * b + s, 0, PartialAt(b))
  }

  ghost function FullTable(): Table<nat, int> {
    Table(HashOf, 4, true, Word(7), Items(), |Items()|, 0, false, Word(0), {})
  }

  lemma NextBucket(b: nat)
    requires b < 5
    ensures AltIndex(Word(7), PartialAt(b), Bucket(b)) == Bucket(b + 1)
  {
  }

  lemma HashedThere(b: nat, s: nat)
    requires b < 5 && s < 4
    ensures PartialKey(HashOf(4 * b + s)) == PartialAt(b) && IndexHash(Word(7), HashOf(4 * b + s)) == Bucket(b)
  {
    assert (4 * b + s) / 4 == b;
  }

  lemma BucketsDiffer(b: nat, c: nat)
    requires b <= 5 && c <= 5
    ensures Bucket(b) == Bucket(c) <==> b == c
    ensures InRange(Word(7), Bucket(b))
  {
  }

  /** The occupied slots. */
  lemma ItemAt(p: Place) returns (b: nat, s: nat)
    requires p in Items()
    ensures b < 5 && s < 4 && p == (Bucket(b), s) && Items()[p] == Entry(4 * b + s, 0, PartialAt(b))
  {
    b, s :| b < 5 && s < 4 && p == (Bucket(b), s) && Items()[p] == Entry(4 * b + s, 0, PartialAt(b));
  }

  lemma ItemsHave(b: nat, s: nat)
    requires b <= 5
    ensures (Bucket(b), s) in Items() <==> b < 5 && s < 4
    ensures b < 5 && s < 4 ==> Items()[(Bucket(b), s)] == Entry(4 * b + s, 0, PartialAt(b))
  {
    if (Bucket(b), s) in Items() {
      var c, r := ItemAt((Bucket(b), s));
      BucketsDiffer(b, c);
    }
  }

  lemma GoodTable()
    ensures Inv(FullTable())
  {
    hide Items, Bucket, HashOf, PartialAt, IndexHash, AltIndex, PartialKey, IsMask;
    var t := FullTable();
    SevenIsMask();
    forall p | p in t.slots
      ensures Placed(t, p)
    {
      var b, s := ItemAt(p);
      HashedThere(b, s);
      BucketsDiffer(b, b);
    }
    forall p, q | p in t.slots && q in t.slots && t.slots[p].key == t.slots[q].key
      ensures p == q
    {
      var b, s := ItemAt(p);
      var c, r := ItemAt(q);
    }
  }

  lemma SevenIsMask()
    ensures IsMask(Word(7))
  {
  }

  /** However walked, every step leads one bucket on. */
  lemma {:induction false} WalkLeadsOn(b: nat, slots: seq<nat>)
    requires b <= 5 && Walk(FullTable(), Bucket(b), slots)
    ensures b + |slots| <= 5 && Follow(FullTable(), Bucket(b), slots) == Bucket(b + |slots|)
  {
    hide Items, Bucket, PartialAt, AltIndex;
    if slots != [] {
      var n := |slots| - 1;
      WalkLeadsOn(b, slots[..n]);
      ItemsHave(b + n, slots[n]);
      NextBucket(b + n);
    }
  }

  lemma {:induction false} WayThere(b: nat, n: nat)
    requires b + n <= 5
    ensures Walk(FullTable(), Bucket(b), seq(n, _ => 0))
  {
    hide Items, Bucket, PartialAt, AltIndex;
    if n > 0 {
      WayThere(b, n - 1);
      var slots := seq(n, _ => 0);
      assert slots[..n - 1] == seq(n - 1, _ => 0);
      WalkLeadsOn(b, slots[..n - 1]);
      ItemsHave(b + n - 1, 0);
    }
  }

  /** Key 20 is not there, and its buckets are the first two. */
  lemma NewKey()
    ensures 20 !in Contents(Items())
    ensures First(FullTable(), 20) == Bucket(0) && Second(FullTable(), 20) == Bucket(1)
  {
    if 20 in Contents(Items()) {
      ContentsPlace(Items(), 20);
      var b, s := ItemAt(PlaceOf(Items(), 20));
    }
    NextBucket(0);
  }

  /** Four moves from key 20's second bucket free a slot for it, yet every slot the search looks at is occupied, so
      that an insertion reports a full table. */
  lemma SearchMisses()
    ensures
      var t := FullTable();
      var i1, i2, y := First(t, 20), Second(t, 20), Path(1, [0, 0, 0, 0]);
      && Inv(t) && !t.growing && 20 !in Contents(t.slots)
      && Full(t, i1) && Full(t, i2) && AllOccupied(t, i1, i2, Looks(t.width))
      && Walk(t, Root(i1, i2, y.start), y.slots) && !Full(t, End(t, i1, i2, y))
  {
    hide Items, Bucket, PartialAt, HashOf, AltIndex, IndexHash, Inv, Contents, AllOccupied, Walk, Follow, Looks;
    var t := FullTable();
    GoodTable();
    NewKey();
    forall b | 0 <= b < 5
      ensures Full(t, Bucket(b))
    {
      BucketFull(b);
    }
    forall y: Path | y.start < 2 && |y.slots| < LONGEST && Walk(t, Root(Bucket(0), Bucket(1), y.start), y.slots)
      ensures Full(t, End(t, Bucket(0), Bucket(1), y))
    {
      WalkLeadsOn(y.start, y.slots);
    }
    WideFails(t, Bucket(0), Bucket(1));
    WayThere(1, 4);
    assert seq(4, _ => 0) == [0, 0, 0, 0];
    WalkLeadsOn(1, [0, 0, 0, 0]);
    ItemsHave(5, 0);
    assert (Bucket(5), 0) !in t.slots;
  }

  lemma BucketFull(b: nat)
    requires b < 5
    ensures Full(FullTable(), Bucket(b))
  {
    hide Items, Bucket;
    forall s | 0 <= s < 4 ensures (Bucket(b), s) in FullTable().slots {
      ItemsHave(b, s);
    }
  }
}
