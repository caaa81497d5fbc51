/** The search for a cuckoo path: a breadth-first search whose queue items carry the path in one number. In a
    table nobody else changes, the path found never comes back to a bucket, so the moves along it succeed. */
module CuckooSearch {
  import opened CuckooIndex
  import opened Cuckoo
  import opened SearchOrder
  import opened Options

  /** `b_slot`. */
  datatype BSlot = BSlot(bucket: Word, pathcode: nat, depth: int)

  // ----- following a path in a table

  /** Where the item in the slot would go. */
  function Next<K, V>(t: Table<K, V>, b: Word, s: nat): Word {
    if (b, s) in t.slots then AltIndex(t.mask, t.slots[(b, s)].partial, b) else b
  }

  /** The bucket a path from `b` ends in. */
  ghost function Follow<K, V>(t: Table<K, V>, b: Word, slots: seq<nat>): Word {
    if slots == [] then b else Next(t, Follow(t, b, slots[..|slots| - 1]), slots[|slots| - 1])
  }

  /** Every slot on the way is occupied. */
  ghost predicate Walk<K, V>(t: Table<K, V>, b: Word, slots: seq<nat>) {
    slots == [] ||
    (var n := |slots| - 1;
     Walk(t, b, slots[..n]) && slots[n] < t.width && (Follow(t, b, slots[..n]), slots[n]) in t.slots)
  }

  lemma {:induction false} FollowJoins<K, V>(t: Table<K, V>, b: Word, a: seq<nat>, c: seq<nat>)
    ensures Follow(t, b, a + c) == Follow(t, Follow(t, b, a), c)
    ensures Walk(t, b, a + c) <==> Walk(t, b, a) && Walk(t, Follow(t, b, a), c)
  {
    if c == [] {
      assert a + c == a;
    } else {
      var n := |c| - 1;
      FollowJoins(t, b, a, c[..n]);
      assert (a + c)[..|a| + n] == a + c[..n];
    }
  }

  /** A way through the same bucket twice can be cut short. */
  lemma Shortcut<K, V>(t: Table<K, V>, b: Word, slots: seq<nat>, i: nat, j: nat)
    requires i <= j <= |slots| && Walk(t, b, slots)
    requires Follow(t, b, slots[..i]) == Follow(t, b, slots[..j])
    ensures Walk(t, b, slots[..i] + slots[j..])
    ensures Follow(t, b, slots[..i] + slots[j..]) == Follow(t, b, slots)
  {
    assert slots == slots[..i] + slots[i..] && slots == slots[..j] + slots[j..];
    FollowJoins(t, b, slots[..i], slots[i..]);
    FollowJoins(t, b, slots[..j], slots[j..]);
    FollowJoins(t, b, slots[..i], slots[j..]);
  }

  function Root(i1: Word, i2: Word, start: nat): Word {
    if start == 0 then i1 else i2
  }

  ghost function End<K, V>(t: Table<K, V>, i1: Word, i2: Word, p: Path): Word {
    Follow(t, Root(i1, i2, p.start), p.slots)
  }

  // ----- what the breadth-first search keeps

  /** The queue item for a path. */
  ghost predicate ItemOf<K, V>(t: Table<K, V>, i1: Word, i2: Word, x: BSlot, p: Path) {
    && p.start < 2 && |p.slots| < MAX_BFS_PATH_LEN
    && Digits(t.width, p.slots) && Walk(t, Root(i1, i2, p.start), p.slots)
    && x == BSlot(End(t, i1, i2, p), Code(t.width, p.start, p.slots), |p.slots|)
  }

  /** All was done for one slot of a path's last bucket: it is occupied, and unless the path is long enough,
      going on there was noted. */
  ghost predicate SlotDone<K, V>(t: Table<K, V>, i1: Word, i2: Word, seen: seq<Path>, p: Path, s: nat) {
    && (End(t, i1, i2, p), s) in t.slots
    && (|p.slots| < MAX_BFS_PATH_LEN - 1 ==> Path(p.start, p.slots + [s]) in seen)
  }

  ghost predicate AllDone<K, V>(t: Table<K, V>, i1: Word, i2: Word, seen: seq<Path>, p: Path) {
    forall s :: 0 <= s < t.width ==> SlotDone(t, i1, i2, seen, p, s)
  }

  /** `seen` are the paths ever put into the queue, of which the first `head` were taken out. */
  ghost predicate Queued<K, V>(t: Table<K, V>, i1: Word, i2: Word, q: seq<BSlot>, seen: seq<Path>, head: nat) {
    && head <= |seen| && |q| == |seen| - head
    && (forall k :: 0 <= k < |q| ==> ItemOf(t, i1, i2, q[k], seen[head + k]))
  }

  ghost predicate Roots(seen: seq<Path>) {
    |seen| >= 2 && seen[0] == Path(0, []) && seen[1] == Path(1, [])
  }

  ghost predicate Finished<K, V>(t: Table<K, V>, i1: Word, i2: Word, seen: seq<Path>, n: nat) {
    n <= |seen| && forall k :: 0 <= k < n ==> AllDone(t, i1, i2, seen, seen[k])
  }

  lemma SlotDoneGrows<K, V>(t: Table<K, V>, i1: Word, i2: Word, seen: seq<Path>, more: seq<Path>, p: Path, s: nat)
    requires SlotDone(t, i1, i2, seen, p, s) && seen <= more
    ensures SlotDone(t, i1, i2, more, p, s)
  {
  }

  lemma FinishedGrows<K, V>(t: Table<K, V>, i1: Word, i2: Word, seen: seq<Path>, more: seq<Path>, n: nat)
    requires Finished(t, i1, i2, seen, n) && seen <= more
    ensures Finished(t, i1, i2, more, n)
  {
    hide SlotDone;
    forall k, s | 0 <= k < n && 0 <= s < t.width ensures SlotDone(t, i1, i2, more, more[k], s) {
      assert AllDone(t, i1, i2, seen, seen[k]);
      SlotDoneGrows(t, i1, i2, seen, more, seen[k], s);
    }
  }

  /** The paths still in the queue have at least `m` slots. */
  ghost predicate LongFrom(seen: seq<Path>, n: nat, m: nat) {
    forall k :: n <= k < |seen| ==> |seen[k].slots| >= m
  }

  /** Then all that can be walked in fewer steps was taken out before, and leads to full buckets only. */
  lemma {:induction false} ShorterIsFull<K, V>(t: Table<K, V>, i1: Word, i2: Word, seen: seq<Path>, n: nat, m: nat,
                                               y: Path)
    requires Roots(seen) && Finished(t, i1, i2, seen, n) && LongFrom(seen, n, m)
    requires y.start < 2 && Walk(t, Root(i1, i2, y.start), y.slots)
    requires |y.slots| < m <= MAX_BFS_PATH_LEN
    ensures exists k :: 0 <= k < n && seen[k] == y
    ensures Full(t, End(t, i1, i2, y))
    decreases |y.slots|
  {
    assert n <= |seen|;
    hide Follow, Full, AllDone, SlotDone, Finished, Root;
    var k: nat;
    if y.slots == [] {
      k := y.start;
    } else {
      var parent := Path(y.start, y.slots[..|y.slots| - 1]);
      ShorterIsFull(t, i1, i2, seen, n, m, parent);
      var j :| 0 <= j < n && seen[j] == parent;
      k := GoneOn(t, i1, i2, seen, n, j, y);
    }
    assert seen[k] == y && k < n;
    TakenIsFull(t, i1, i2, seen, n, k);
  }

  /** Where a path taken out goes on, it was noted. */
  lemma GoneOn<K, V>(t: Table<K, V>, i1: Word, i2: Word, seen: seq<Path>, n: nat, j: nat, y: Path) returns (k: nat)
    requires Finished(t, i1, i2, seen, n) && j < n && 0 < |y.slots| < MAX_BFS_PATH_LEN
    requires seen[j] == Path(y.start, y.slots[..|y.slots| - 1]) && y.slots[|y.slots| - 1] < t.width
    ensures k < |seen| && seen[k] == y
  {
    hide Follow, Walk, Root;
    var l := |y.slots| - 1;
    assert AllDone(t, i1, i2, seen, seen[j]);
    assert SlotDone(t, i1, i2, seen, seen[j], y.slots[l]);
    assert y.slots[..l] + [y.slots[l]] == y.slots;
    k :| k < |seen| && seen[k] == y;
  }

  lemma TakenIsFull<K, V>(t: Table<K, V>, i1: Word, i2: Word, seen: seq<Path>, n: nat, k: nat)
    requires Finished(t, i1, i2, seen, n) && k < n
    ensures Full(t, End(t, i1, i2, seen[k]))
  {
    hide Follow, Walk, Root;
    assert AllDone(t, i1, i2, seen, seen[k]);
    forall s | 0 <= s < t.width ensures (End(t, i1, i2, seen[k]), s) in t.slots {
      assert SlotDone(t, i1, i2, seen, seen[k], s);
    }
  }

  /** No path of fewer than `n` slots leads to a bucket with a free slot. */
  ghost predicate NoneShorter<K, V>(t: Table<K, V>, i1: Word, i2: Word, n: nat) {
    forall y: Path :: y.start < 2 && |y.slots| < n && Walk(t, Root(i1, i2, y.start), y.slots) ==>
      Full(t, End(t, i1, i2, y))
  }

  lemma AllShorterFull<K, V>(t: Table<K, V>, i1: Word, i2: Word, seen: seq<Path>, n: nat, m: nat)
    requires Roots(seen) && Finished(t, i1, i2, seen, n) && LongFrom(seen, n, m) && m <= MAX_BFS_PATH_LEN
    ensures NoneShorter(t, i1, i2, m)
  {
    hide Walk, Finished, Roots, Full;
    forall y: Path | y.start < 2 && |y.slots| < m && Walk(t, Root(i1, i2, y.start), y.slots)
      ensures Full(t, End(t, i1, i2, y))
    {
      ShorterIsFull(t, i1, i2, seen, n, m, y);
    }
  }

  /** No bucket is on the way twice. */
  ghost predicate Loopless<K, V>(t: Table<K, V>, b: Word, slots: seq<nat>) {
    forall i, j :: 0 <= i < j <= |slots| ==> Follow(t, b, slots[..i]) != Follow(t, b, slots[..j])
  }

  /** The first path found to a bucket with a free slot has no loop: cut short, it would have been found
      before. */
  lemma FoundIsLoopless<K, V>(t: Table<K, V>, i1: Word, i2: Word, seen: seq<Path>, at: nat, s: nat)
    requires Roots(seen) && at < |seen| && Finished(t, i1, i2, seen, at)
    requires forall a, b :: 0 <= a < b < |seen| ==> |seen[a].slots| <= |seen[b].slots|
    requires seen[at].start < 2 && |seen[at].slots| <= MAX_BFS_PATH_LEN - 1
    requires Walk(t, Root(i1, i2, seen[at].start), seen[at].slots)
    requires s < t.width && (End(t, i1, i2, seen[at]), s) !in t.slots
    ensures Loopless(t, Root(i1, i2, seen[at].start), seen[at].slots)
  {
    var p := seen[at];
    var b := Root(i1, i2, p.start);
    hide Walk, Follow, Root, Finished, Roots;
    assert LongFrom(seen, at, |p.slots|);
    forall i, j | 0 <= i < j <= |p.slots|
      ensures Follow(t, b, p.slots[..i]) != Follow(t, b, p.slots[..j])
    {
      if Follow(t, b, p.slots[..i]) == Follow(t, b, p.slots[..j]) {
        Shortcut(t, b, p.slots, i, j);
        ShorterIsFull(t, i1, i2, seen, at, |p.slots|, Path(p.start, p.slots[..i] + p.slots[j..]));
        assert false;
      }
    }
  }

  // ----- steps of the search

  ghost predicate Sorted(seen: seq<Path>, most: nat) {
    && (forall a, b :: 0 <= a < b < |seen| ==> |seen[a].slots| <= |seen[b].slots|)
    && forall b :: 0 <= b < |seen| ==> |seen[b].slots| <= most
  }

  /** The item for the bucket the item in the slot would go to. */
  function Child<K, V>(t: Table<K, V>, x: BSlot, s: nat): BSlot
    requires (x.bucket, s) in t.slots
  {
    BSlot(AltIndex(t.mask, t.slots[(x.bucket, s)].partial, x.bucket), x.pathcode * t.width + s, x.depth + 1)
  }

  /** A longer path goes to the back of the queue. */
  lemma EnqueueKeeps<K, V>(t: Table<K, V>, i1: Word, i2: Word, q: seq<BSlot>, seen: seq<Path>, head: nat,
                           x: BSlot, p: Path, s: nat)
    requires Queued(t, i1, i2, q, seen, head) && Sorted(seen, |p.slots| + 1)
    requires ItemOf(t, i1, i2, x, p) && |p.slots| < MAX_BFS_PATH_LEN - 1
    requires s < t.width && (x.bucket, s) in t.slots
    ensures Queued(t, i1, i2, q + [Child(t, x, s)], seen + [Path(p.start, p.slots + [s])], head)
    ensures Sorted(seen + [Path(p.start, p.slots + [s])], |p.slots| + 1)
  {
    hide AltIndex;
    var slots := p.slots + [s];
    assert slots[..|p.slots|] == p.slots && slots[|p.slots|] == s;
    assert ItemOf(t, i1, i2, Child(t, x, s), Path(p.start, slots));
  }

  /** What the search promises in a table at rest. */
  ghost predicate Found<K, V>(t: Table<K, V>, i1: Word, i2: Word, x: BSlot, p: Path, s: nat) {
    && p.start < 2 && x.depth == |p.slots| <= MAX_BFS_PATH_LEN - 1
    && Digits(t.width, p.slots + [s]) && Walk(t, Root(i1, i2, p.start), p.slots)
    && (End(t, i1, i2, p), s) !in t.slots
    && Loopless(t, Root(i1, i2, p.start), p.slots) && NoneShorter(t, i1, i2, |p.slots|)
    && x.pathcode == Code(t.width, p.start, p.slots + [s])
  }

  /** An item all of whose slots were looked at is finished. */
  lemma ItemFinished<K, V>(t: Table<K, V>, i1: Word, i2: Word, seen: seq<Path>, n: nat, from: nat)
    requires Finished(t, i1, i2, seen, n) && n < |seen| && from < t.width
    requires forall j :: 0 <= j < t.width ==> SlotDone(t, i1, i2, seen, seen[n], Round(t.width, from, j))
    ensures Finished(t, i1, i2, seen, n + 1)
  {
    hide SlotDone, Round;
    forall s | 0 <= s < t.width ensures SlotDone(t, i1, i2, seen, seen[n], s) {
      RoundMeetsAll(t.width, from, s);
      var j :| 0 <= j < t.width && Round(t.width, from, j) == s;
    }
    assert AllDone(t, i1, i2, seen, seen[n]);
  }

  lemma SearchStarts<K, V>(t: Table<K, V>, i1: Word, i2: Word)
    ensures
      var seen := [Path(0, []), Path(1, [])];
      && Queued(t, i1, i2, [BSlot(i1, 0, 0), BSlot(i2, 1, 0)], seen, 0)
      && Roots(seen) && Sorted(seen, 1) && Finished(t, i1, i2, seen, 0)
  {
  }

  /** The item at the front and its path. */
  lemma TakeOut<K, V>(t: Table<K, V>, i1: Word, i2: Word, q: seq<BSlot>, seen: seq<Path>, head: nat) returns (p: Path)
    requires q != [] && Queued(t, i1, i2, q, seen, head)
    ensures head < |seen| && p == seen[head] && ItemOf(t, i1, i2, q[0], p)
    ensures q[0].depth == |p.slots| < MAX_BFS_PATH_LEN
    ensures Queued(t, i1, i2, q[1..], seen, head + 1)
  {
    p := seen[head];
    forall k | 0 <= k < |q| - 1 ensures ItemOf(t, i1, i2, q[1..][k], seen[head + 1 + k]) {
      assert q[1..][k] == q[k + 1];
    }
  }

  lemma QueueIsRest<K, V>(t: Table<K, V>, i1: Word, i2: Word, q: seq<BSlot>, seen: seq<Path>, head: nat)
    requires q != [] && Queued(t, i1, i2, q, seen, head)
    ensures head < |seen|
  {
  }

  lemma QueueIsAll<K, V>(t: Table<K, V>, i1: Word, i2: Word, seen: seq<Path>, head: nat)
    requires Queued(t, i1, i2, [], seen, head)
    ensures head == |seen|
  {
  }

  /** The next item's path is at most one shorter than the longest. */
  lemma NextSorted(seen: seq<Path>, head: nat, p: Path)
    requires head + 1 < |seen| && seen[head] == p && Sorted(seen, |p.slots| + 1)
    ensures Sorted(seen, |seen[head + 1].slots| + 1)
  {
    assert |seen[head].slots| <= |seen[head + 1].slots|;
  }

  /** After a longer path was noted, one more slot is done, and what was done still is. */
  lemma MoreDone<K, V>(t: Table<K, V>, i1: Word, i2: Word, seen: seq<Path>, p: Path, s: nat, head: nat, from: nat,
                       i: nat)
    requires t.width > 0 && Finished(t, i1, i2, seen, head) && Roots(seen)
    requires forall j :: 0 <= j < i ==> SlotDone(t, i1, i2, seen, p, Round(t.width, from, j))
    requires s == Round(t.width, from, i) && (End(t, i1, i2, p), s) in t.slots
    ensures
      var more := seen + [Path(p.start, p.slots + [s])];
      && Finished(t, i1, i2, more, head) && Roots(more)
      && forall j :: 0 <= j < i + 1 ==> SlotDone(t, i1, i2, more, p, Round(t.width, from, j))
  {
    hide SlotDone, Finished, Round;
    var more := seen + [Path(p.start, p.slots + [s])];
    FinishedGrows(t, i1, i2, seen, more, head);
    forall j | 0 <= j < i + 1 ensures SlotDone(t, i1, i2, more, p, Round(t.width, from, j)) {
      if j < i {
        SlotDoneGrows(t, i1, i2, seen, more, p, Round(t.width, from, j));
      } else {
        NewDone(t, i1, i2, seen, p, s);
      }
    }
  }

  lemma NewDone<K, V>(t: Table<K, V>, i1: Word, i2: Word, seen: seq<Path>, p: Path, s: nat)
    requires (End(t, i1, i2, p), s) in t.slots
    ensures SlotDone(t, i1, i2, seen + [Path(p.start, p.slots + [s])], p, s)
  {
  }

  /** A slot of a path that is long enough needs only be occupied. */
  lemma LongDone<K, V>(t: Table<K, V>, i1: Word, i2: Word, seen: seq<Path>, x: BSlot, p: Path, s: nat)
    requires ItemOf(t, i1, i2, x, p) && x.depth >= MAX_BFS_PATH_LEN - 1 && (x.bucket, s) in t.slots
    ensures SlotDone(t, i1, i2, seen, p, s)
  {
  }

  /** In the middle of an item: the first `i` slots from `from` on are done. */
  ghost predicate Expanding<K, V>(t: Table<K, V>, i1: Word, i2: Word, x: BSlot, p: Path, rest: seq<BSlot>,
                                  more: seq<Path>, head: nat, from: nat, i: nat) {
    && i <= t.width && from < t.width && head < |more| && more[head] == p && ItemOf(t, i1, i2, x, p)
    && Queued(t, i1, i2, rest, more, head + 1) && Roots(more)
    && Sorted(more, |p.slots| + 1) && Finished(t, i1, i2, more, head)
    && forall j :: 0 <= j < i ==> SlotDone(t, i1, i2, more, p, Round(t.width, from, j))
  }

  lemma ExpandStarts<K, V>(t: Table<K, V>, i1: Word, i2: Word, q: seq<BSlot>, seen: seq<Path>, head: nat, from: nat)
    requires q != [] && Queued(t, i1, i2, q, seen, head) && Roots(seen) && Finished(t, i1, i2, seen, head)
    requires head < |seen| && Sorted(seen, |seen[head].slots| + 1) && from < t.width
    ensures Expanding(t, i1, i2, q[0], seen[head], q[1..], seen, head, from, 0)
  {
    hide ItemOf, Roots, Sorted, Finished, SlotDone;
    var p := TakeOut(t, i1, i2, q, seen, head);
  }

  lemma FoundHere<K, V>(t: Table<K, V>, i1: Word, i2: Word, x: BSlot, p: Path, rest: seq<BSlot>,
                        more: seq<Path>, head: nat, from: nat, i: nat)
    requires Expanding(t, i1, i2, x, p, rest, more, head, from, i)
    requires (x.bucket, Round(t.width, from, i)) !in t.slots
    ensures
      var s := Round(t.width, from, i);
      Found(t, i1, i2, x.(pathcode := x.pathcode * t.width + s), p, s)
  {
    hide Walk, Follow, Finished, Roots, Loopless, SlotDone, Queued;
    var s := Round(t.width, from, i);
    FoundIsLoopless(t, i1, i2, more, head, s);
    assert LongFrom(more, head, |p.slots|);
    AllShorterFull(t, i1, i2, more, head, |p.slots|);
    assert (p.slots + [s])[..|p.slots|] == p.slots;
  }

  lemma ExpandChild<K, V>(t: Table<K, V>, i1: Word, i2: Word, x: BSlot, p: Path, rest: seq<BSlot>,
                          more: seq<Path>, head: nat, from: nat, i: nat)
    requires Expanding(t, i1, i2, x, p, rest, more, head, from, i)
    requires i < t.width && x.depth < LONGEST
    requires (x.bucket, Round(t.width, from, i)) in t.slots
    ensures
      var s := Round(t.width, from, i);
      Expanding(t, i1, i2, x, p, rest + [Child(t, x, s)], more + [Path(p.start, p.slots + [s])], head, from, i + 1)
  {
    hide Finished, Roots, SlotDone, Queued, Sorted, AltIndex, Walk, Follow, Code, Digits;
    var s := Round(t.width, from, i);
    EnqueueKeeps(t, i1, i2, rest, more, head + 1, x, p, s);
    MoreDone(t, i1, i2, more, p, s, head, from, i);
  }

  lemma ExpandLong<K, V>(t: Table<K, V>, i1: Word, i2: Word, x: BSlot, p: Path, rest: seq<BSlot>,
                         more: seq<Path>, head: nat, from: nat, i: nat)
    requires Expanding(t, i1, i2, x, p, rest, more, head, from, i)
    requires i < t.width && x.depth >= LONGEST
    requires (x.bucket, Round(t.width, from, i)) in t.slots
    ensures Expanding(t, i1, i2, x, p, rest, more, head, from, i + 1)
  {
    hide Finished, Roots, Queued, Sorted, Walk, Follow, Code, Digits;
    LongDone(t, i1, i2, more, x, p, Round(t.width, from, i));
  }

  /** After an item: finished with it, if all its slots were looked at. */
  lemma ExpandEnds<K, V>(t: Table<K, V>, i1: Word, i2: Word, x: BSlot, p: Path, rest: seq<BSlot>,
                         more: seq<Path>, head: nat, from: nat, i: nat)
    requires Expanding(t, i1, i2, x, p, rest, more, head, from, i)
    ensures Queued(t, i1, i2, rest, more, head + 1) && Roots(more) && head < |more| && more[head] == p
    ensures Sorted(more, |more[head].slots| + 1) && Finished(t, i1, i2, more, head)
    ensures i == t.width ==> Finished(t, i1, i2, more, head + 1)
  {
    hide Finished, Roots, SlotDone, Queued, Sorted, Walk, Follow, Code, Digits;
    if i == t.width {
      ItemFinished(t, i1, i2, more, head, from);
    }
  }

  // ----- the slots looked at, by number

  /** Slot number `m`, of the bucket its item leads to. */
  ghost predicate Occupied<K, V>(t: Table<K, V>, i1: Word, i2: Word, m: nat)
    requires t.width > 0
  {
    var p := NthPath(t.width, Item(t.width, m));
    (End(t, i1, i2, p), Round(t.width, Start(t.width, p), OfItem(t.width, m))) in t.slots
  }

  ghost predicate AllOccupied<K, V>(t: Table<K, V>, i1: Word, i2: Word, n: nat)
    requires t.width > 0
  {
    forall m: nat :: m < n ==> Occupied(t, i1, i2, m)
  }

  /** The paths noted are the first in order, one for each slot looked at. */
  ghost predicate InOrder(w: nat, seen: seq<Path>, m: nat)
    requires w > 0
  {
    |seen| == Noted(w, m) && forall k: nat :: k < |seen| ==> seen[k] == NthPath(w, k)
  }

  lemma OrderStarts(w: nat)
    requires w > 0
    ensures InOrder(w, [Path(0, []), Path(1, [])], 0)
  {
    StartsUnderway(w);
  }

  /** What the item at the front of the queue is looked at by. */
  lemma ItemInOrder<K, V>(t: Table<K, V>, i1: Word, i2: Word, seen: seq<Path>, m: nat, x: BSlot, head: nat, i: nat)
    requires t.width > 0 && InOrder(t.width, seen, m) && head < |seen| && ItemOf(t, i1, i2, x, seen[head])
    requires i < t.width
    ensures x.pathcode % t.width == Start(t.width, seen[head]) && head < Total(t.width, LONGEST)
    ensures x.depth < LONGEST <==> head < Total(t.width, LONGEST - 1)
    ensures Occupied(t, i1, i2, SlotsBefore(t.width, head) + i) <==>
              (x.bucket, Round(t.width, Start(t.width, seen[head]), i)) in t.slots
  {
    hide Item, OfItem, Total, Walk;
    assert seen[head] == NthPath(t.width, head);
    ItemIs(t.width, head, i);
    NthLength(t.width, head, LONGEST - 1);
  }

  /** One more slot is occupied, and its path noted unless it is too long. */
  lemma OneMore<K, V>(t: Table<K, V>, i1: Word, i2: Word, more: seq<Path>, head: nat, i: nat)
    requires i < t.width && InOrder(t.width, more, SlotsBefore(t.width, head) + i) && head < |more|
    requires AllOccupied(t, i1, i2, SlotsBefore(t.width, head) + i)
    requires Occupied(t, i1, i2, SlotsBefore(t.width, head) + i)
    ensures AllOccupied(t, i1, i2, SlotsBefore(t.width, head) + i + 1)
    ensures
      var p := more[head];
      var longer := Path(p.start, p.slots + [Round(t.width, Start(t.width, p), i)]);
      var all := if head < Total(t.width, LONGEST - 1) then more + [longer] else more;
      InOrder(t.width, all, SlotsBefore(t.width, head) + i + 1)
  {
    hide Noted, Total, Occupied, Start;
    var w := t.width;
    NotedMore(w, head, i);
    NthLonger(w, head, i);
    assert more[head] == NthPath(w, head);
  }

  lemma TurnOfItem<K, V>(t: Table<K, V>, i1: Word, i2: Word, x: BSlot, p: Path, rest: seq<BSlot>,
                         more: seq<Path>, head: nat, from: nat, i: nat)
    requires Expanding(t, i1, i2, x, p, rest, more, head, from, i) && i < t.width
    requires InOrder(t.width, more, SlotsBefore(t.width, head) + i) && from == Start(t.width, p)
    ensures head < |more| && more[head] == p && head < Total(t.width, LONGEST) && |rest| == |more| - (head + 1)
    ensures |more| == Noted(t.width, SlotsBefore(t.width, head) + i)
    ensures p == NthPath(t.width, head) && Round(t.width, from, i) == (from + i) % t.width
    ensures x.depth < LONGEST <==> head < Total(t.width, LONGEST - 1)
    ensures Occupied(t, i1, i2, SlotsBefore(t.width, head) + i) <==> (x.bucket, Round(t.width, from, i)) in t.slots
  {
    hide Sorted, Finished, SlotDone, Occupied, Total, Noted;
    ItemInOrder(t, i1, i2, more, SlotsBefore(t.width, head) + i, x, head, i);
  }

  /** The search goes on with the next item, or the slot was its last. */
  lemma ItemDone<K, V>(t: Table<K, V>, i1: Word, i2: Word, rest: seq<BSlot>, more: seq<Path>, head: nat, i: nat)
    requires i <= t.width && t.width > 0 && Underway(t.width, head) && head < Total(t.width, LONGEST)
    requires Queued(t, i1, i2, rest, more, head + 1) && InOrder(t.width, more, SlotsBefore(t.width, head) + i)
    requires AllOccupied(t, i1, i2, SlotsBefore(t.width, head) + i)
    requires (|rest| == QUEUE && i > 0) || (|rest| < QUEUE && i == t.width)
    ensures |rest| == QUEUE ==> AllOccupied(t, i1, i2, Looks(t.width))
    ensures |rest| < QUEUE ==> Underway(t.width, head + 1) && InOrder(t.width, more, SlotsBefore(t.width, head + 1))
    ensures |rest| < QUEUE ==> AllOccupied(t, i1, i2, SlotsBefore(t.width, head + 1))
  {
    hide Occupied, Underway, Noted, Looks, Total, ItemOf;
    if |rest| == QUEUE {
      FullAtLast(t.width, head, i);
    } else {
      StaysUnderway(t.width, head);
    }
  }

  lemma OrderIsAll(w: nat, seen: seq<Path>, head: nat)
    requires w > 0 && InOrder(w, seen, SlotsBefore(w, head)) && Underway(w, head) && |seen| == head
    ensures SlotsBefore(w, head) == Looks(w)
  {
    EmptyAtLast(w, head);
  }

  // ----- the records of the path, and the moves

  /** The records of a path in a table at rest: each says where the item of its slot goes, which is where the
      next one is; only the last slot is free. */
  ghost predicate Recorded<K, V>(t: Table<K, V>, i1: Word, i2: Word, path: seq<Record>, depth: nat) {
    && |path| > depth
    && (path[0].bucket == i1 || path[0].bucket == i2)
    && (forall k :: 0 <= k <= depth ==> path[k].slot < t.width)
    && (path[depth].bucket, path[depth].slot) !in t.slots
    && (forall k, n :: 0 <= k < depth && n == k + 1 ==> Leads(t, path[k], path[n].bucket))
    && (forall k, n :: 0 <= k < n <= depth ==> path[k].bucket != path[n].bucket)
  }

  /** What is left of a path when its last move is due is what the end of an insertion is handed. */
  lemma EndsPath<K, V>(t: Table<K, V>, key: K, path: seq<Record>, depth: nat)
    requires Recorded(t, First(t, key), Second(t, key), path, depth) && depth <= 1
    ensures
      var last := if depth == 0 then None else Some((path[0], path[1].slot));
      && PathEnd(t, key, last, (path[0].bucket, path[0].slot))
      && if depth == 0 then (path[0].bucket, path[0].slot) !in t.slots else CanMove(t, path[0], path[1].slot)
  {
    if depth == 1 {
      assert Leads(t, path[0], path[1].bucket);
    }
  }

  ghost predicate Leads<K, V>(t: Table<K, V>, r: Record, next: Word) {
    && (r.bucket, r.slot) in t.slots
    && t.hash(t.slots[(r.bucket, r.slot)].key) == r.hv
    && Target(t, r) == next
  }

  /** In a table at rest the stored partial gives the same target as the key's hash, which the source asserts
      lies in one of the item's two buckets. */
  lemma NextIsTarget<K, V>(t: Table<K, V>, b: Word, s: nat)
    requires Inv(t) && !t.growing && (b, s) in t.slots
    ensures
      var hv := t.hash(t.slots[(b, s)].key);
      && Next(t, b, s) == AltIndex(t.mask, PartialKey(hv), b)
      && (b == IndexHash(t.mask, hv) || b == AltIndex(t.mask, PartialKey(hv), IndexHash(t.mask, hv)))
  {
    hide AltIndex, IndexHash, PartialKey, IsMask, NextMask;
    assert Placed(t, (b, s));
  }

  /** The slots of a found path, as the loop over its number finds them from the end. */
  lemma FoundSlots<K, V>(t: Table<K, V>, i1: Word, i2: Word, x: BSlot, p: Path, s: nat, k: nat)
    requires Found(t, i1, i2, x, p, s) && k < |p.slots|
    ensures
      var all := p.slots + [s];
      && all[k] < t.width && Walk(t, Root(i1, i2, p.start), all[..k])
      && (Follow(t, Root(i1, i2, p.start), all[..k]), all[k]) in t.slots
  {
    hide Walk, Follow, Code, Digits, Loopless, Root, NoneShorter;
    WalkPrefix(t, Root(i1, i2, p.start), p.slots, k);
    assert (p.slots + [s])[..k] == p.slots[..k] && (p.slots + [s])[k] == p.slots[k];
  }

  lemma WalkPrefix<K, V>(t: Table<K, V>, b: Word, slots: seq<nat>, k: nat)
    requires Walk(t, b, slots) && k < |slots|
    ensures Walk(t, b, slots[..k]) && slots[k] < t.width && (Follow(t, b, slots[..k]), slots[k]) in t.slots
  {
    var n := k + 1;
    assert slots == slots[..n] + slots[n..];
    FollowJoins(t, b, slots[..n], slots[n..]);
    assert slots[..n][..k] == slots[..k] && slots[..n][k] == slots[k];
  }

  /** The records made along a found path. */
  ghost predicate RecordsOf<K, V>(t: Table<K, V>, b: Word, all: seq<nat>, path: seq<Record>) {
    |path| <= |all| &&
    forall k :: 0 <= k < |path| ==>
      && path[k].bucket == Follow(t, b, all[..k]) && path[k].slot == all[k]
      && (k < |all| - 1 ==>
            (path[k].bucket, all[k]) in t.slots && path[k].hv == t.hash(t.slots[(path[k].bucket, all[k])].key))
  }

  lemma RecordsApart<K, V>(t: Table<K, V>, b: Word, slots: seq<nat>, s: nat, path: seq<Record>, k: nat, n: nat)
    requires RecordsOf(t, b, slots + [s], path) && Loopless(t, b, slots) && k < n < |path|
    ensures path[k].bucket != path[n].bucket
  {
    hide Follow;
    assert (slots + [s])[..k] == slots[..k] && (slots + [s])[..n] == slots[..n];
  }

  lemma RecordLeads<K, V>(t: Table<K, V>, b: Word, all: seq<nat>, path: seq<Record>, k: nat)
    requires Inv(t) && !t.growing && RecordsOf(t, b, all, path) && k + 1 < |path|
    ensures Leads(t, path[k], path[k + 1].bucket)
  {
    hide Inv, AltIndex, PartialKey, IndexHash, Next, Follow;
    FollowOne(t, b, all, k);
    NextIsTarget(t, path[k].bucket, path[k].slot);
  }

  lemma RecordsAreRecorded<K, V>(t: Table<K, V>, i1: Word, i2: Word, x: BSlot, p: Path, s: nat, path: seq<Record>)
    requires Inv(t) && !t.growing && Found(t, i1, i2, x, p, s)
    requires RecordsOf(t, Root(i1, i2, p.start), p.slots + [s], path) && |path| == |p.slots| + 1
    ensures Recorded(t, i1, i2, path, |p.slots|)
  {
    hide Inv, Walk, Loopless, Leads, Code;
    var all, b, d := p.slots + [s], Root(i1, i2, p.start), |p.slots|;
    assert all[..d] == p.slots && all[..0] == [];
    forall k, n | 0 <= k < d && n == k + 1 ensures Leads(t, path[k], path[n].bucket) {
      RecordLeads(t, b, all, path, k);
    }
    forall k, n | 0 <= k < n <= d ensures path[k].bucket != path[n].bucket {
      RecordsApart(t, b, p.slots, s, path, k, n);
    }
  }

  /** Along recorded moves the last one can be made, and the others still can afterwards. */
  lemma LastMove<K, V>(t: Table<K, V>, i1: Word, i2: Word, path: seq<Record>, d: nat)
    requires Inv(t) && !t.growing && Recorded(t, i1, i2, path, d) && d > 0
    ensures CanMove(t, path[d - 1], path[d].slot)
    ensures Recorded(Hop(t, path[d - 1], path[d].slot).1, i1, i2, path, d - 1)
  {
    hide Inv, AltIndex, PartialKey;
    assert Leads(t, path[d - 1], path[d].bucket);
    var t' := Hop(t, path[d - 1], path[d].slot).1;
    forall k, n | 0 <= k < d - 1 && n == k + 1 ensures Leads(t', path[k], path[n].bucket) {
      assert Leads(t, path[k], path[n].bucket);
      assert path[k].bucket != path[d - 1].bucket && path[k].bucket != path[d].bucket;
    }
  }

  lemma FoundNumber<K, V>(t: Table<K, V>, i1: Word, i2: Word, x: BSlot, p: Path, s: nat)
    requires Found(t, i1, i2, x, p, s)
    ensures p.start < 2 && x.depth == |p.slots| && Digits(t.width, p.slots + [s])
    ensures x.pathcode == Code(t.width, p.start, p.slots + [s])
  {
  }

  lemma CodeOfNothing(w: nat, start: nat, all: seq<nat>)
    ensures Code(w, start, all[..0]) == start
  {
  }

  lemma FollowNothing<K, V>(t: Table<K, V>, b: Word, all: seq<nat>)
    ensures Follow(t, b, all[..0]) == b
  {
  }

  lemma FollowOne<K, V>(t: Table<K, V>, b: Word, all: seq<nat>, k: nat)
    requires k < |all|
    ensures Follow(t, b, all[..k + 1]) == Next(t, Follow(t, b, all[..k]), all[k])
  {
    assert all[..k + 1][..k] == all[..k];
  }

  lemma LastIsFree<K, V>(t: Table<K, V>, i1: Word, i2: Word, path: seq<Record>, d: nat)
    requires Recorded(t, i1, i2, path, d)
    ensures |path| > d && path[d].slot < t.width && path[0].slot < t.width
    ensures (path[d].bucket, path[d].slot) !in t.slots
    ensures path[0].bucket == i1 || path[0].bucket == i2
  {
  }

  lemma HopIsMove<K, V>(t: Table<K, V>, from: Record, ts: nat)
    requires CanMove(t, from, ts)
    ensures Hop(t, from, ts).0 == Ok
    ensures Hop(t, from, ts).1 == t.(slots := Hop(t, from, ts).1.slots)
  {
  }

  lemma InsertAnswers<K, V>(t: Table<K, V>, key: K, val: V)
    ensures Insert(t, key, val).0 in {Ok, Duplicated, NeedsCuckoo}
    ensures Insert(t, key, val).1 == t.(slots := Insert(t, key, val).1.slots, inserts := Insert(t, key, val).1.inserts)
  {
    hide First, Second, Add;
    AddIsUpdate(t, key, val);
  }

  lemma AddIsUpdate<K, V>(t: Table<K, V>, key: K, val: V)
    ensures forall p ::
              Add(t, p, key, val) == t.(slots := Add(t, p, key, val).slots, inserts := Add(t, p, key, val).inserts)
  {
  }
}
