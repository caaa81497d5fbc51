/** The cuckoo hash map with its fields and loops. Each method runs with the locks of its buckets held and
    does to the fields what its step of `Cuckoo` does to a table. */
module CuckooMap {
  import opened CuckooIndex
  import opened Cuckoo
  import opened CuckooSearch
  import opened SearchOrder
  import opened Options

  class CuckooMap<K(==), V> {
    const hash: K -> Word
    const width: nat
    const simple: bool
    var mask: Word
    var slots: map<Place, Entry<K, V>>
    var inserts: int
    var deletes: int
    var growing: bool
    var oldmask: Word
    var done: set<Word>

    function Snapshot(): Table<K, V>
      reads this
    {
      Table(hash, width, simple, mask, slots, inserts, deletes, growing, oldmask, done)
    }

    constructor (hash: K -> Word, width: nat, simple: bool, mask: Word)
      ensures Snapshot() == Table(hash, width, simple, mask, map[], 0, 0, false, mask, {})
    {
      this.hash, this.width, this.simple, this.mask := hash, width, simple, mask;
      slots, inserts, deletes, growing, oldmask, done := map[], 0, 0, false, mask, {};
    }

    /** Look for the key in a bucket, and for a free slot on the way. */
    method TryFindInsertBucket(b: Word, key: K) returns (absent: bool, slot: Option<nat>)
      ensures absent <==> Scan(Snapshot(), b, key, 0).None?
      ensures absent ==> slot == Free(Snapshot(), b, 0)
      ensures absent ==> forall i :: 0 <= i < width && (b, i) in slots ==> !Matches(Snapshot(), slots[(b, i)], key)
      ensures absent && slot.Some? ==>
                slot.value < width && (b, slot.value) !in slots && forall i :: 0 <= i < slot.value ==> (b, i) in slots
      ensures absent && slot.None? ==> Full(Snapshot(), b)
    {
      ScanFinds(Snapshot(), b, key, 0);
      FreeIsFree(Snapshot(), b, 0);
      slot := None;
      var i := 0;
      while i < width
        invariant 0 <= i <= width
        invariant Scan(Snapshot(), b, key, i) == Scan(Snapshot(), b, key, 0)
        invariant slot.None? ==> Free(Snapshot(), b, i) == Free(Snapshot(), b, 0)
        invariant slot.Some? ==> slot == Free(Snapshot(), b, 0)
      {
        if (b, i) in slots {
          if simple || slots[(b, i)].partial == PartialKey(hash(key)) {
            if slots[(b, i)].key == key {
              return false, None;
            }
          }
        } else if slot.None? {
          slot := Some(i);
        }
        i := i + 1;
      }
      absent := true;
    }

    method AddToBucket(b: Word, slot: nat, key: K, val: V)
      modifies this
      ensures Snapshot() == Add(old(Snapshot()), (b, slot), key, val)
    {
      slots := slots[(b, slot) := Entry(key, val, PartialKey(hash(key)))];
      inserts := inserts + 1;
    }

    /** `cuckoo_insert` up to where it has to displace something. */
    method CuckooInsert(key: K, val: V) returns (st: Status)
      modifies this
      ensures (st, Snapshot()) == Insert(old(Snapshot()), key, val)
    {
      var i1 := IndexHash(mask, hash(key));
      var i2 := AltIndex(mask, PartialKey(hash(key)), i1);
      var absent1, res1 := TryFindInsertBucket(i1, key);
      if !absent1 {
        return Duplicated;
      }
      var absent2, res2 := TryFindInsertBucket(i2, key);
      if !absent2 {
        return Duplicated;
      }
      if res1.Some? {
        AddToBucket(i1, res1.value, key, val);
        return Ok;
      }
      if res2.Some? {
        AddToBucket(i2, res2.value, key, val);
        return Ok;
      }
      st := NeedsCuckoo;
    }

    method CheckInBucket(b: Word, key: K) returns (found: Option<nat>)
      ensures found == Scan(Snapshot(), b, key, 0)
      ensures found.Some? ==>
                && found.value < width && (b, found.value) in slots && slots[(b, found.value)].key == key
                && forall i :: 0 <= i < found.value && (b, i) in slots ==> !Matches(Snapshot(), slots[(b, i)], key)
      ensures found.None? ==>
                forall i :: 0 <= i < width && (b, i) in slots ==> !Matches(Snapshot(), slots[(b, i)], key)
    {
      ScanFinds(Snapshot(), b, key, 0);
      var i := 0;
      while i < width
        invariant 0 <= i <= width
        invariant Scan(Snapshot(), b, key, i) == Scan(Snapshot(), b, key, 0)
      {
        if (b, i) in slots && (simple || slots[(b, i)].partial == PartialKey(hash(key))) && slots[(b, i)].key == key {
          return Some(i);
        }
        i := i + 1;
      }
      found := None;
    }

    method CuckooDelete(key: K) returns (st: Status)
      modifies this
      ensures (st, Snapshot()) == Delete(old(Snapshot()), key)
    {
      var i1 := IndexHash(mask, hash(key));
      var i2 := AltIndex(mask, PartialKey(hash(key)), i1);
      var b := i1;
      var found := CheckInBucket(i1, key);
      if found.None? {
        b := i2;
        found := CheckInBucket(i2, key);
      }
      if found.None? {
        return NotFound;
      }
      slots := slots - {(b, found.value)};
      deletes := deletes + 1;
      st := Ok;
    }

    /** One hop of `cuckoopath_move`, revalidated under its two locks. */
    method MoveAlong(from: Record, ts: nat) returns (st: Status)
      modifies this
      ensures (st, Snapshot()) == Hop(old(Snapshot()), from, ts)
    {
      var p := (from.bucket, from.slot);
      var q := (AltIndex(mask, PartialKey(from.hv), from.bucket), ts);
      if p !in slots || hash(slots[p].key) != from.hv || q in slots {
        return Invalid;
      }
      slots := (slots - {p})[q := slots[p]];
      st := Ok;
    }

    /** `slot_search` in a table nobody else changes: breadth first from the two buckets to the first free slot
        among those it looks at, over a shortest path. -1 if all of them are occupied. */
    method SlotSearch(i1: Word, i2: Word) returns (x: BSlot, ghost path: Path, ghost free: nat, ghost at: nat)
      requires width > 0
      ensures x.depth >= 0 ==> Found(Snapshot(), i1, i2, x, path, free)
      ensures x.depth >= 0 ==>
                && at < Looks(width) && AllOccupied(Snapshot(), i1, i2, at) && !Occupied(Snapshot(), i1, i2, at)
                && NthPath(width, at + 2) == Path(path.start, path.slots + [free])
      ensures x.depth < 0 ==> x.depth == -1
      ensures x.depth < 0 <==> AllOccupied(Snapshot(), i1, i2, Looks(width))
    {
      hide Finished, Roots, Queued, Sorted, Found, InOrder, Occupied, Looks, Underway, Noted, Total;
      hide SlotsBefore, NthPath;
      ghost var t := Snapshot();
      NothingBefore(width);
      var q := [BSlot(i1, 0, 0), BSlot(i2, 1, 0)];
      ghost var seen := [Path(0, []), Path(1, [])];
      ghost var head: nat := 0;
      SearchStarts(t, i1, i2);
      OrderStarts(width);
      StartsUnderway(width);
      while |q| != QUEUE && q != []
        invariant |q| <= QUEUE && Queued(t, i1, i2, q, seen, head) && Roots(seen)
        invariant |q| < QUEUE ==> Finished(t, i1, i2, seen, head)
        invariant |q| < QUEUE && head < |seen| ==> Sorted(seen, |seen[head].slots| + 1)
        invariant |q| < QUEUE ==> Underway(width, head) && InOrder(width, seen, SlotsBefore(width, head))
        invariant |q| < QUEUE ==> AllOccupied(t, i1, i2, SlotsBefore(width, head))
        invariant |q| == QUEUE ==> AllOccupied(t, i1, i2, Looks(width))
        decreases Total(width, LONGEST) - head
      {
        QueueIsRest(t, i1, i2, q, seen, head);
        x, q, path, seen, head, free, at := ExpandItem(i1, i2, q, seen, head);
        if x.depth >= 0 {
          return;
        }
      }
      if q == [] {
        QueueIsAll(t, i1, i2, seen, head);
        OrderIsAll(width, seen, head);
      }
      return BSlot(i1, 0, -1), Path(0, []), 0, 0;
    }

    /** One item of the queue: look at its bucket's slots, starting at the one its number picks. */
    method ExpandItem(i1: Word, i2: Word, q: seq<BSlot>, ghost seen: seq<Path>, ghost head: nat)
      returns (found: BSlot, rest: seq<BSlot>, ghost path: Path, ghost more: seq<Path>, ghost next: nat,
               ghost free: nat, ghost at: nat)
      requires width > 0 && 0 < |q| < QUEUE && Underway(width, head) && InOrder(width, seen, SlotsBefore(width, head))
      requires AllOccupied(Snapshot(), i1, i2, SlotsBefore(width, head))
      requires Queued(Snapshot(), i1, i2, q, seen, head) && Roots(seen) && Finished(Snapshot(), i1, i2, seen, head)
      requires head < |seen| && Sorted(seen, |seen[head].slots| + 1)
      ensures found.depth >= 0 ==> Found(Snapshot(), i1, i2, found, path, free)
      ensures found.depth >= 0 ==>
                && at < Looks(width) && AllOccupied(Snapshot(), i1, i2, at) && !Occupied(Snapshot(), i1, i2, at)
                && NthPath(width, at + 2) == Path(path.start, path.slots + [free])
      ensures found.depth < 0 ==>
                && |rest| <= QUEUE && Queued(Snapshot(), i1, i2, rest, more, next) && Roots(more)
                && next == head + 1 <= Total(width, LONGEST)
                && (|rest| < QUEUE ==> Finished(Snapshot(), i1, i2, more, next))
                && (|rest| < QUEUE && next < |more| ==> Sorted(more, |more[next].slots| + 1))
                && (|rest| < QUEUE ==> Underway(width, next) && InOrder(width, more, SlotsBefore(width, next)))
                && (|rest| < QUEUE ==> AllOccupied(Snapshot(), i1, i2, SlotsBefore(width, next)))
                && (|rest| == QUEUE ==> AllOccupied(Snapshot(), i1, i2, Looks(width)))
    {
      hide Finished, Roots, Queued, Sorted, Found, AltIndex, Expanding, InOrder, Occupied, Looks;
      hide Underway, Noted, Total, Round, Start, ItemOf, NthPath, SlotsBefore;
      ghost var t := Snapshot();
      var x := q[0];
      rest, more, next, free, at := q[1..], seen, head + 1, 0, SlotsBefore(width, head);
      path := TakeOut(t, i1, i2, q, seen, head);
      var startingSlot := x.pathcode % width;
      var i := 0;
      ItemInOrder(t, i1, i2, seen, at, x, head, 0);
      ExpandStarts(t, i1, i2, q, seen, head, startingSlot);
      while i < width && |rest| != QUEUE
        invariant i <= width && |rest| <= QUEUE && (|rest| == QUEUE ==> i > 0) && at == SlotsBefore(width, head) + i
        invariant Expanding(t, i1, i2, x, path, rest, more, head, startingSlot, i)
        invariant InOrder(width, more, at) && AllOccupied(t, i1, i2, at)
      {
        var slot := (startingSlot + i) % width;
        TurnOfItem(t, i1, i2, x, path, rest, more, head, startingSlot, i);
        if (x.bucket, slot) !in slots {
          FoundHere(t, i1, i2, x, path, rest, more, head, startingSlot, i);
          NthLonger(width, head, i);
          NotLast(width, head, i);
          return x.(pathcode := x.pathcode * width + slot), rest, path, more, next, slot, at;
        }
        OneMore(t, i1, i2, more, head, i);
        if x.depth < MAX_BFS_PATH_LEN - 1 {
          ExpandChild(t, i1, i2, x, path, rest, more, head, startingSlot, i);
          var partial := slots[(x.bucket, slot)].partial;
          var y := BSlot(AltIndex(mask, partial, x.bucket), x.pathcode * width + slot, x.depth + 1);
          assert y == Child(t, x, slot);
          rest := rest + [y];
          more := more + [Path(path.start, path.slots + [slot])];
        } else {
          ExpandLong(t, i1, i2, x, path, rest, more, head, startingSlot, i);
        }
        i := i + 1;
        at := at + 1;
      }
      ExpandEnds(t, i1, i2, x, path, rest, more, head, startingSlot, i);
      ItemDone(t, i1, i2, rest, more, head, i);
      if next < |more| {
        NextSorted(more, head, path);
      }
      found := BSlot(i1, 0, -1);
    }

    /** The slots of a path, read off its number from the end; what is left says where it starts. */
    method ReadSlots(number: nat, depth: nat, ghost start: nat, ghost all: seq<nat>)
      returns (pathcode: nat, digits: seq<nat>)
      requires width > 0 && Digits(width, all) && |all| == depth + 1 && number == Code(width, start, all)
      ensures pathcode == start && digits == all
    {
      hide Code;
      digits, pathcode := [], number;
      var i: int := depth;
      assert all[..i + 1] == all && all[i + 1..] == [];
      while i >= 0
        invariant -1 <= i <= depth
        invariant pathcode == Code(width, start, all[..i + 1]) && digits == all[i + 1..]
      {
        LastDigit(width, start, all[..i + 1]);
        assert all[..i + 1][..i] == all[..i];
        digits := [pathcode % width] + digits;
        pathcode := pathcode / width;
        i := i - 1;
      }
      CodeOfNothing(width, start, all);
    }

    /** The records, bucket by bucket from the front. */
    method ReadRecords(start: Word, digits: seq<nat>) returns (path: seq<Record>)
      requires Inv(Snapshot()) && !growing && digits != []
      requires forall k :: 0 <= k < |digits| - 1 ==> (Follow(Snapshot(), start, digits[..k]), digits[k]) in slots
      ensures |path| == |digits| && RecordsOf(Snapshot(), start, digits, path)
    {
      hide Inv, Follow, AltIndex, PartialKey, IndexHash;
      ghost var t := Snapshot();
      var bucket := start;
      path := [];
      FollowNothing(t, start, digits);
      for depth := 0 to |digits| - 1
        invariant |path| == depth && bucket == Follow(t, start, digits[..depth])
        invariant RecordsOf(t, start, digits, path)
      {
        var hv := hash(slots[(bucket, digits[depth])].key);
        path := path + [Record(bucket, digits[depth], hv)];
        NextIsTarget(t, bucket, digits[depth]);
        FollowOne(t, start, digits, depth);
        bucket := AltIndex(mask, PartialKey(hv), bucket);
      }
      path := path + [Record(bucket, digits[|digits| - 1], Word(0))];
    }

    /** `cuckoopath_search` in a table nobody else changes: its early ends are not met. */
    method PathSearch(i1: Word, i2: Word) returns (depth: int, path: seq<Record>)
      requires width > 0 && Inv(Snapshot()) && !growing
      ensures depth >= 0 ==> Recorded(Snapshot(), i1, i2, path, depth)
      ensures depth < 0 <==> AllOccupied(Snapshot(), i1, i2, Looks(width))
    {
      hide Inv, Found, Recorded, Code, Walk, Follow, RecordsOf, Occupied, Looks;
      ghost var t := Snapshot();
      var x, p, free, _ := SlotSearch(i1, i2);
      if x.depth < 0 {
        return -1, [];
      }
      FoundNumber(t, i1, i2, x, p, free);
      ghost var all := p.slots + [free];
      var start, digits := ReadSlots(x.pathcode, x.depth, p.start, all);
      assert start == 0 || start == 1;
      forall k | 0 <= k < |all| - 1 ensures (Follow(t, Root(i1, i2, p.start), all[..k]), all[k]) in slots {
        FoundSlots(t, i1, i2, x, p, free, k);
      }
      path := ReadRecords(if start == 0 then i1 else i2, digits);
      RecordsAreRecorded(t, i1, i2, x, p, free, path);
      depth := x.depth;
    }

    /** `cuckoopath_move` in a table nobody else changes: every move along the path goes through. */
    method PathMove(i1: Word, i2: Word, path: seq<Record>, depth: nat)
      requires Inv(Snapshot()) && !growing && Recorded(Snapshot(), i1, i2, path, depth)
      modifies this
      ensures path != [] && Inv(Snapshot()) && Snapshot() == old(Snapshot()).(slots := slots)
      ensures Contents(slots) == Contents(old(slots))
      ensures (path[0].bucket, path[0].slot) !in slots && path[0].slot < width
      ensures path[0].bucket == i1 || path[0].bucket == i2
    {
      hide Inv, Contents, Hop, Recorded, CanMove;
      ghost var was := Snapshot();
      var d: nat := depth;
      LastIsFree(was, i1, i2, path, d);
      while d > 0
        invariant Recorded(Snapshot(), i1, i2, path, d) && |path| > d
        invariant Inv(Snapshot()) && Snapshot() == was.(slots := slots)
        invariant Contents(slots) == Contents(was.slots)
      {
        ghost var t := Snapshot();
        LastMove(t, i1, i2, path, d);
        LastIsFree(t, i1, i2, path, d);
        HopKeeps(t, path[d - 1], path[d].slot);
        HopIsMove(t, path[d - 1], path[d].slot);
        var st := MoveAlong(path[d - 1], path[d].slot);
        assert st == Ok;
        d := d - 1;
      }
      LastIsFree(Snapshot(), i1, i2, path, 0);
    }

    /** `cuckoo_insert` when nobody else changes the table: the answer is the map's, unless both buckets are full
        and so is every slot the search looks at. */
    method InsertAlone(key: K, val: V) returns (st: Status)
      requires width > 0 && Inv(Snapshot()) && !growing
      modifies this
      ensures Inv(Snapshot()) && st in {Ok, Duplicated, TableFull}
      ensures st == Duplicated <==> key in Contents(old(slots))
      ensures st == TableFull <==>
                var t := old(Snapshot());
                && key !in Contents(t.slots) && Full(t, First(t, key)) && Full(t, Second(t, key))
                && AllOccupied(t, First(t, key), Second(t, key), Looks(width))
      ensures Contents(slots) == if st == Ok then Contents(old(slots))[key := val] else Contents(old(slots))
    {
      hide Inv, Contents, Insert, Recorded, AltIndex, PartialKey, IndexHash, Add;
      ghost var t := Snapshot();
      InsertKeeps(t, key, val);
      InsertAnswers(t, key, val);
      st := CuckooInsert(key, val);
      if st != NeedsCuckoo {
        return;
      }
      var i1 := IndexHash(mask, hash(key));
      var i2 := AltIndex(mask, PartialKey(hash(key)), i1);
      var depth, path := PathSearch(i1, i2);
      if depth < 0 {
        return TableFull;
      }
      PathMove(i1, i2, path, depth);
      ghost var t1 := Snapshot();
      ContainsKey(t1, key);
      var first := CheckInBucket(i1, key);
      var second := CheckInBucket(i2, key);
      assert first.None? && second.None?;
      AddKeeps(t1, (path[0].bucket, path[0].slot), key, val);
      AddToBucket(path[0].bucket, path[0].slot, key, val);
      st := Ok;
    }

    /** `move_buckets` on one old bucket; what the source asserts of the items that stay is asserted here. */
    method MoveBucket(b: Word)
      requires Inv(Snapshot()) && growing && InRange(oldmask, b) && b !in done
      modifies this
      ensures Snapshot() == SplitBucket(old(Snapshot()), b)
    {
      hide Inv, HalfSplit, IndexHash, AltIndex, PartialKey, Upper;
      ghost var t := Snapshot();
      var newBucket := Upper(oldmask, b);
      var newSlot, slot := 0, 0;
      StartHalf(t, b);
      while slot < width
        invariant 0 <= slot <= width
        invariant Snapshot() == t.(slots := slots)
        invariant SplitFrom(t, slots, b, slot, newSlot) == SplitFrom(t, t.slots, b, 0, 0)
        invariant HalfSplit(t, slots, b, slot, newSlot)
      {
        if (b, slot) in slots {
          var item := slots[(b, slot)];
          var hv := hash(item.key);
          var oldFirst := IndexHash(oldmask, hv);
          var oldSecond := AltIndex(oldmask, item.partial, oldFirst);
          var newFirst := IndexHash(mask, hv);
          var newSecond := AltIndex(mask, item.partial, newFirst);
          if (b == oldFirst && newFirst == newBucket) || (b == oldSecond && newSecond == newBucket) {
            SplitUp(t, slots, b, slot, newSlot);
            slots := (slots - {(b, slot)})[(newBucket, newSlot) := item];
            newSlot := newSlot + 1;
          } else {
            SplitStay(t, slots, b, slot, newSlot);
            assert (b == oldFirst && newFirst == oldFirst) || (b == oldSecond && newSecond == oldSecond);
          }
        } else {
          SplitStay(t, slots, b, slot, newSlot);
        }
        slot := slot + 1;
      }
      done := done + {b};
    }
  }
}
