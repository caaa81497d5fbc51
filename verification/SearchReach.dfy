/** What the search for a cuckoo path can and cannot find, in a table nobody else changes. */
module SearchReach {
  import opened CuckooIndex
  import opened Cuckoo
  import opened CuckooSearch
  import opened SearchOrder

  /** The slots looked at are occupied exactly if their paths can be walked. */
  lemma {:induction false} OccupiedIsWalk<K, V>(t: Table<K, V>, i1: Word, i2: Word, n: nat, k: nat)
    requires t.width > 0 && AllOccupied(t, i1, i2, n) && k < n + 2
    ensures
      var y := NthPath(t.width, k);
      Walk(t, Root(i1, i2, y.start), y.slots)
  {
    hide Item, OfItem, Start, Follow, Round, Root;
    if k >= 2 {
      var w, m := t.width, k - 2;
      var h := Item(w, m);
      OccupiedIsWalk(t, i1, i2, n, h);
      assert Occupied(t, i1, i2, m);
      LastOfLonger(w, NthPath(w, h), OfItem(w, m));
    }
  }

  lemma LastOfLonger(w: nat, p: Path, i: nat)
    requires w > 0
    ensures
      var q := Longer(w, p, i);
      && |q.slots| == |p.slots| + 1 && q.start == p.start
      && q.slots[..|p.slots|] == p.slots && q.slots[|p.slots|] == Round(w, Start(w, p), i)
  {
  }

  lemma WalkIsOccupied<K, V>(t: Table<K, V>, i1: Word, i2: Word, m: nat)
    requires t.width > 0
    requires
      var y := NthPath(t.width, m + 2);
      Walk(t, Root(i1, i2, y.start), y.slots)
    ensures Occupied(t, i1, i2, m)
  {
    hide Item, OfItem, Start, Follow, Round, Root;
    LastOfLonger(t.width, NthPath(t.width, Item(t.width, m)), OfItem(t.width, m));
  }

  /** A path whose number the search comes to. */
  ghost predicate Reached(w: nat, n: nat, y: Path)
    requires w > 0
  {
    y.start < 2 && Digits(w, y.slots) && Number(w, y) < n + 2
  }

  /** The first `n` slots are occupied if and only if every path of a number below can be walked. */
  lemma OccupiedIff<K, V>(t: Table<K, V>, i1: Word, i2: Word, n: nat)
    requires t.width > 0
    ensures AllOccupied(t, i1, i2, n) <==>
              forall y: Path :: Reached(t.width, n, y) ==> Walk(t, Root(i1, i2, y.start), y.slots)
  {
    hide Occupied, Walk, Root;
    if AllOccupied(t, i1, i2, n) {
      forall y: Path | Reached(t.width, n, y)
        ensures Walk(t, Root(i1, i2, y.start), y.slots)
      {
        NumberFinds(t.width, y);
        OccupiedIsWalk(t, i1, i2, n, Number(t.width, y));
      }
    } else if forall y: Path :: Reached(t.width, n, y) ==> Walk(t, Root(i1, i2, y.start), y.slots) {
      forall m: nat | m < n
        ensures Occupied(t, i1, i2, m)
      {
        NthIsPath(t.width, m + 2);
        NumberOfNth(t.width, m + 2);
        assert Reached(t.width, n, NthPath(t.width, m + 2));
        WalkIsOccupied(t, i1, i2, m);
      }
    }
  }

  /** If it comes to all paths of up to `d` + 1 slots and finds them occupied, no path of up to `d` moves leads to
      a free slot. */
  lemma NoneMissed<K, V>(t: Table<K, V>, i1: Word, i2: Word, n: nat, d: nat)
    requires t.width > 0 && AllOccupied(t, i1, i2, n) && Total(t.width, d + 1) <= n + 2
    ensures NoneShorter(t, i1, i2, d + 1)
  {
    hide AllOccupied, Follow, Total, Root, Walk;
    forall y: Path | y.start < 2 && |y.slots| < d + 1 && Walk(t, Root(i1, i2, y.start), y.slots)
      ensures Full(t, End(t, i1, i2, y))
    {
      forall s | 0 <= s < t.width
        ensures (End(t, i1, i2, y), s) in t.slots
      {
        SlotReached(t, i1, i2, n, d + 1, y, s);
      }
    }
  }

  /** A slot behind a path of fewer than `d` moves, looked at and occupied. */
  lemma SlotReached<K, V>(t: Table<K, V>, i1: Word, i2: Word, n: nat, d: nat, y: Path, s: nat)
    requires t.width > 0 && AllOccupied(t, i1, i2, n) && y.start < 2 && |y.slots| < d && s < t.width
    requires Walk(t, Root(i1, i2, y.start), y.slots)
    requires || Total(t.width, d) <= n + 2
             || (Total(t.width, d) <= n + 3 && Path(y.start, y.slots + [s]) != NthPath(t.width, n + 2))
    ensures (End(t, i1, i2, y), s) in t.slots
  {
    hide Occupied, Follow, Total, Root, NthPath;
    WalkDigits(t, Root(i1, i2, y.start), y.slots);
    var z := Path(y.start, y.slots + [s]);
    NumberFinds(t.width, z);
    NthLength(t.width, Number(t.width, z), d);
    OccupiedIsWalk(t, i1, i2, n, Number(t.width, z));
    assert z.slots[..|y.slots|] == y.slots;
  }

  lemma {:induction false} WalkDigits<K, V>(t: Table<K, V>, b: Word, slots: seq<nat>)
    requires Walk(t, b, slots)
    ensures Digits(t.width, slots)
  {
    hide Follow;
    if slots != [] {
      WalkDigits(t, b, slots[..|slots| - 1]);
    }
  }

  /** And if no path of up to `d` moves does, it finds only occupied slots among those. */
  lemma {:induction false} NoneFound<K, V>(t: Table<K, V>, i1: Word, i2: Word, n: nat, d: nat)
    requires t.width > 0 && NoneShorter(t, i1, i2, d + 1) && n + 2 <= Total(t.width, d + 1)
    ensures AllOccupied(t, i1, i2, n)
  {
    if n > 0 {
      NoneFound(t, i1, i2, n - 1, d);
      OneFurther(t, i1, i2, n - 1, d);
    }
  }

  lemma OneFurther<K, V>(t: Table<K, V>, i1: Word, i2: Word, m: nat, d: nat)
    requires t.width > 0 && NoneShorter(t, i1, i2, d + 1) && m + 2 < Total(t.width, d + 1)
    requires AllOccupied(t, i1, i2, m)
    ensures Occupied(t, i1, i2, m)
  {
    hide Item, OfItem, Total, Walk, Follow, Start, Root;
    var w := t.width;
    var h := Item(w, m);
    OccupiedIsWalk(t, i1, i2, m, h);
    NthIsPath(w, h);
    NthLength(w, m + 2, d + 1);
    LastOfLonger(w, NthPath(w, h), OfItem(w, m));
    assert Full(t, End(t, i1, i2, NthPath(w, h)));
  }

  /** With up to three slots a bucket the search fails exactly if no path of up to four moves leads to a free
      slot. */
  lemma NarrowFails<K, V>(t: Table<K, V>, i1: Word, i2: Word)
    requires 0 < t.width <= 3
    ensures AllOccupied(t, i1, i2, Looks(t.width)) <==> NoneShorter(t, i1, i2, MAX_BFS_PATH_LEN)
  {
    hide AllOccupied, NoneShorter, Total;
    TotalStep(t.width, MAX_BFS_PATH_LEN);
    if AllOccupied(t, i1, i2, Looks(t.width)) {
      NoneMissed(t, i1, i2, Looks(t.width), LONGEST);
    } else if NoneShorter(t, i1, i2, MAX_BFS_PATH_LEN) {
      NoneFound(t, i1, i2, Looks(t.width), LONGEST);
    }
  }

  /** With more, four moves are never reached: it fails whenever none of up to three moves leads to a free slot. */
  lemma WideFails<K, V>(t: Table<K, V>, i1: Word, i2: Word)
    requires t.width > 3 && NoneShorter(t, i1, i2, LONGEST)
    ensures AllOccupied(t, i1, i2, Looks(t.width))
  {
    hide AllOccupied, NoneShorter, Total;
    WideLooks(t.width);
    NoneFound(t, i1, i2, Looks(t.width), LONGEST - 1);
  }

  lemma WideLooks(w: nat)
    requires w > 3
    ensures Looks(w) + 2 <= Total(w, LONGEST)
  {
    hide Total;
    WideTotal(w);
    ItemBound(w - 1, QUEUE - 3);
    var h := (QUEUE - 3) / (w - 1);
    MulGrows(3, w - 1, h);
    assert (w - 1) * h == h * (w - 1);
  }

  /** The one slot of those up to three moves away that is not looked at, with four slots a bucket. */
  const UNSEEN: Path := Path(1, [0, 3, 2, 1])

  lemma FourTotals()
    ensures Looks(4) == 679 && Total(4, 3) == 170 && Total(4, 4) == 682
  {
    assert Cost(4, 1) == 5 && Cost(4, 2) == 21 && Cost(4, 3) == 85;
  }

  lemma UnseenIsLast()
    ensures NthPath(4, 681) == UNSEEN
  {
    hide Number, NthPath, Code;
    NoSlots();
    OneLonger([], 0, [0], 1, 1, 9, 4);
    OneLonger([0], 3, [0, 3], 9, 4, 41, 19);
    OneLonger([0, 3], 2, [0, 3, 2], 41, 19, 169, 78);
    OneLonger([0, 3, 2], 1, [0, 3, 2, 1], 169, 78, 681, 313);
    NumberFinds(4, UNSEEN);
  }

  lemma NoSlots()
    ensures Number(4, Path(1, [])) == 1 && Code(4, 1, []) == 1
  {
  }

  /** A path's number and code, from those of the path before its last slot. */
  lemma OneLonger(q: seq<nat>, s: nat, p: seq<nat>, number: nat, code: nat, number': nat, code': nat)
    requires Digits(4, q) && s < 4 && p == q + [s] && Number(4, Path(1, q)) == number && Code(4, 1, q) == code
    requires number' == 2 + 4 * number + Turn(4, code % 4, s) && code' == 4 * code + s
    ensures Digits(4, p) && Number(4, Path(1, p)) == number' && Code(4, 1, p) == code'
  {
    assert p[..|q|] == q;
  }

  /** The slots three moves away are occupied, but for the one not looked at. */
  ghost predicate ThirdFull<K, V>(t: Table<K, V>, i1: Word, i2: Word) {
    forall y: Path, s: nat | ThirdSlot(t, i1, i2, y, s) :: (End(t, i1, i2, y), s) in t.slots
  }

  ghost predicate ThirdSlot<K, V>(t: Table<K, V>, i1: Word, i2: Word, y: Path, s: nat) {
    && y.start < 2 && |y.slots| == 3 && s < 4 && Path(y.start, y.slots + [s]) != UNSEEN
    && Walk(t, Root(i1, i2, y.start), y.slots)
  }

  /** With four slots a bucket the search fails exactly if no path of up to two moves leads to a free slot, and
      none of three moves either, but for the one slot it does not get to. */
  lemma FourFails<K, V>(t: Table<K, V>, i1: Word, i2: Word)
    requires t.width == 4
    ensures AllOccupied(t, i1, i2, Looks(4)) <==> NoneShorter(t, i1, i2, 3) && ThirdFull(t, i1, i2)
  {
    hide AllOccupied, NoneShorter, Total, Walk, NthPath, Looks;
    FourTotals();
    UnseenIsLast();
    if AllOccupied(t, i1, i2, 679) {
      NoneMissed(t, i1, i2, 679, 2);
      forall y: Path, s: nat | ThirdSlot(t, i1, i2, y, s)
        ensures (End(t, i1, i2, y), s) in t.slots
      {
        SlotReached(t, i1, i2, 679, 4, y, s);
      }
    } else if NoneShorter(t, i1, i2, 3) && ThirdFull(t, i1, i2) {
      NoneFound(t, i1, i2, 168, 2);
      forall z: Path | Reached(4, 679, z)
        ensures Walk(t, Root(i1, i2, z.start), z.slots)
      {
        ThirdWalk(t, i1, i2, z);
      }
      OccupiedIff(t, i1, i2, 679);
    }
  }

  lemma ThirdWalk<K, V>(t: Table<K, V>, i1: Word, i2: Word, z: Path)
    requires t.width == 4 && AllOccupied(t, i1, i2, 168) && ThirdFull(t, i1, i2) && Reached(4, 679, z)
    ensures Walk(t, Root(i1, i2, z.start), z.slots)
  {
    hide AllOccupied, Total, NthPath, Looks, Follow, Root, Number;
    FourTotals();
    UnseenIsLast();
    NumberFinds(4, z);
    NthLength(4, Number(4, z), 3);
    NthLength(4, Number(4, z), 4);
    if |z.slots| <= 3 {
      OccupiedIsWalk(t, i1, i2, 168, Number(4, z));
    } else {
      var y := Path(z.start, z.slots[..3]);
      NumberFinds(4, y);
      NthLength(4, Number(4, y), 3);
      OccupiedIsWalk(t, i1, i2, 168, Number(4, y));
      assert y.slots + [z.slots[3]] == z.slots;
      NumberOfNth(4, 681);
      assert ThirdSlot(t, i1, i2, y, z.slots[3]);
    }
  }
}
