/** The order in which the search for a cuckoo path looks at slots. It depends on the table's width only, as long as
    every slot it comes to is occupied: paths are numbered as they are put into the queue. */
module SearchOrder {
  import opened Arithmetic

  const MAX_BFS_PATH_LEN: nat := 5
  /** What the circular array of 512 holds. */
  const QUEUE: nat := 511

  /** A path as the search means it: one of the two starting buckets, and the slots items are kicked out of. */
  datatype Path = Path(start: nat, slots: seq<nat>)

  // ----- the path in a number

  /** The number with these digits in base `w`, the start in front. */
  function Code(w: nat, start: nat, slots: seq<nat>): nat {
    if slots == [] then start
    else Code(w, start, slots[..|slots| - 1]) * w + slots[|slots| - 1]
  }

  ghost predicate Digits(w: nat, slots: seq<nat>) {
    forall i :: 0 <= i < |slots| ==> slots[i] < w
  }

  /** Taking a digit off the number takes the last slot off the path. */
  lemma LastDigit(w: nat, start: nat, slots: seq<nat>)
    requires w > 0 && slots != [] && Digits(w, slots)
    ensures
      var n := |slots| - 1;
      Code(w, start, slots) % w == slots[n] && Code(w, start, slots) / w == Code(w, start, slots[..n])
  {
    var n := |slots| - 1;
    DivMod(Code(w, start, slots[..n]), w, slots[n]);
  }

  function Power(w: nat, k: nat): nat {
    if k == 0 then 1 else Power(w, k - 1) * w
  }

  /** The number of a path stays below twice the power the source checks its width against. */
  lemma {:induction false} CodeFits(w: nat, start: nat, slots: seq<nat>)
    requires start < 2 && Digits(w, slots)
    ensures Code(w, start, slots) < 2 * Power(w, |slots|)
  {
    if slots != [] {
      var n := |slots| - 1;
      CodeFits(w, start, slots[..n]);
      DigitFits(Code(w, start, slots[..n]), Power(w, n), w, slots[n]);
    }
  }

  lemma MulGrows(a: nat, b: nat, w: nat)
    requires a <= b
    ensures a * w <= b * w
  {
  }

  lemma DigitFits(c: nat, p: nat, w: nat, s: nat)
    requires c < 2 * p && s < w
    ensures c * w + s < 2 * (p * w)
  {
    assert c + 1 <= 2 * p;
    MulGrows(c + 1, 2 * p, w);
    assert (c + 1) * w == c * w + w && (2 * p) * w == 2 * (p * w);
  }

  // ----- slots in turn

  /** Starting anywhere and going round, every slot is met. */
  lemma RoundMeetsAll(w: nat, from: nat, s: nat)
    requires s < w && from < w
    ensures exists i :: 0 <= i < w && Round(w, from, i) == s
  {
    var i := if from <= s then s - from else s + w - from;
    DivMod(0, w, s);
    DivMod(1, w, s);
    assert from + i == if from <= s then 0 * w + s else 1 * w + s;
    assert Round(w, from, i) == s;
  }

  function Round(w: nat, from: nat, i: nat): (s: nat)
    requires w > 0
    ensures s < w
  {
    (from + i) % w
  }

  // ----- the numbering

  /** How many paths of up to `left` slots begin in one bucket, the empty one included. */
  function Cost(w: nat, left: nat): nat {
    if left == 0 then 1 else 1 + w * Cost(w, left - 1)
  }

  /** ... and in the two starting buckets. */
  function Total(w: nat, n: nat): nat {
    2 * Cost(w, n)
  }

  /** The slot a path's last bucket is looked at first. */
  function Start(w: nat, p: Path): (s: nat)
    requires w > 0
    ensures s < w
  {
    Code(w, p.start, p.slots) % w
  }

  /** The slots of the items before item `h`. */
  function SlotsBefore(w: nat, h: nat): nat {
    w * h
  }

  /** The item slot number `m` belongs to, `w` for each item, and the how manieth of the item it is. */
  function Item(w: nat, m: nat): (h: nat)
    requires w > 0
    ensures h <= m && SlotsBefore(w, h) <= m < SlotsBefore(w, h) + w
  {
    ItemBound(w, m);
    m / w
  }

  lemma ItemBound(w: nat, m: nat)
    requires w > 0
    ensures m / w <= m && w * (m / w) <= m < w * (m / w) + w
  {
    assert m == (m / w) * w + m % w;
    MulGrows(1, w, m / w);
    assert (m / w) * w == w * (m / w);
  }

  function OfItem(w: nat, m: nat): (i: nat)
    requires w > 0
    ensures i < w && m == SlotsBefore(w, Item(w, m)) + i
  {
    m - SlotsBefore(w, Item(w, m))
  }

  lemma NothingBefore(w: nat)
    ensures SlotsBefore(w, 0) == 0
  {
  }

  lemma ItemIs(w: nat, h: nat, i: nat)
    requires i < w
    ensures Item(w, SlotsBefore(w, h) + i) == h && OfItem(w, SlotsBefore(w, h) + i) == i
  {
    DivMod(h, w, i);
    assert h * w + i == w * h + i;
  }

  /** Path number `k`: the two starts, then item by item the ways on, slot by slot from that one on. */
  function NthPath(w: nat, k: nat): Path
    requires w > 0
  {
    if k < 2 then Path(k, []) else Longer(w, NthPath(w, Item(w, k - 2)), OfItem(w, k - 2))
  }

  /** The way on through the `i`-th slot looked at. */
  function Longer(w: nat, p: Path, i: nat): Path
    requires w > 0
  {
    Path(p.start, p.slots + [Round(w, Start(w, p), i)])
  }

  lemma NthLonger(w: nat, h: nat, i: nat)
    requires i < w
    ensures NthPath(w, 2 + SlotsBefore(w, h) + i) == Longer(w, NthPath(w, h), i)
  {
    ItemIs(w, h, i);
    assert 2 + w * h + i - 2 == w * h + i;
  }

  lemma LessTimes(w: nat, m: nat, t: nat)
    requires w > 0
    ensures Item(w, m) < t <==> m < w * t
  {
    hide Item;
    var h := Item(w, m);
    if h < t {
      MulGrows(h + 1, t, w);
    } else {
      MulGrows(t, h, w);
    }
    assert (h + 1) * w == w * h + w && t * w == w * t && h * w == w * h;
  }

  /** It is breadth first: by length. */
  lemma {:induction false} NthLength(w: nat, k: nat, n: nat)
    requires w > 0
    ensures |NthPath(w, k).slots| <= n <==> k < Total(w, n)
  {
    hide Item, OfItem, Total;
    if k >= 2 && n > 0 {
      NthLength(w, Item(w, k - 2), n - 1);
      LessTimes(w, k - 2, Total(w, n - 1));
      TotalStep(w, n);
    } else {
      TotalAtLeast(w, n);
    }
  }

  lemma TotalAtLeast(w: nat, n: nat)
    ensures Total(w, n) >= 2 && Total(w, 0) == 2
  {
    CostPositive(w, n);
  }

  lemma TotalStep(w: nat, n: nat)
    requires n > 0
    ensures Total(w, n) == 2 + w * Total(w, n - 1)
  {
    assert w * (2 * Cost(w, n - 1)) == 2 * (w * Cost(w, n - 1));
  }

  lemma CostPositive(w: nat, left: nat)
    ensures Cost(w, left) >= 1
  {
  }

  lemma {:induction false} NthIsPath(w: nat, k: nat)
    requires w > 0
    ensures NthPath(w, k).start < 2 && Digits(w, NthPath(w, k).slots)
  {
    hide Item, OfItem, Start;
    if k >= 2 {
      NthIsPath(w, Item(w, k - 2));
    }
  }

  /** How many slots after the first one looked at a slot has its turn. */
  function Turn(w: nat, from: nat, s: nat): (i: nat)
    requires from < w && s < w
    ensures i < w
  {
    if from <= s then s - from else s + w - from
  }

  lemma TurnIs(w: nat, from: nat, s: nat)
    requires from < w && s < w
    ensures Round(w, from, Turn(w, from, s)) == s
  {
    DivMod(0, w, s);
    DivMod(1, w, s);
    assert from + Turn(w, from, s) == if from <= s then 0 * w + s else 1 * w + s;
  }

  lemma TurnOf(w: nat, from: nat, i: nat)
    requires from < w && i < w
    ensures Turn(w, from, Round(w, from, i)) == i
  {
    if from + i < w {
      DivMod(0, w, from + i);
      assert 0 * w + (from + i) == from + i;
    } else {
      DivMod(1, w, from + i - w);
      assert 1 * w + (from + i - w) == from + i;
    }
  }

  /** A path's number. */
  function Number(w: nat, p: Path): nat
    requires w > 0 && Digits(w, p.slots)
    decreases |p.slots|
  {
    if p.slots == [] then p.start
    else
      var n := |p.slots| - 1;
      var q := Path(p.start, p.slots[..n]);
      2 + SlotsBefore(w, Number(w, q)) + Turn(w, Start(w, q), p.slots[n])
  }

  /** Every path has a number ... */
  lemma {:induction false} NumberFinds(w: nat, p: Path)
    requires w > 0 && p.start < 2 && Digits(w, p.slots)
    ensures NthPath(w, Number(w, p)) == p
    decreases |p.slots|
  {
    hide Item, OfItem, Start, SlotsBefore, Turn, Round;
    if p.slots != [] {
      var n := |p.slots| - 1;
      var q := Path(p.start, p.slots[..n]);
      var i := Turn(w, Start(w, q), p.slots[n]);
      NumberFinds(w, q);
      NthLonger(w, Number(w, q), i);
      TurnIs(w, Start(w, q), p.slots[n]);
      assert p.slots[..n] + [p.slots[n]] == p.slots;
    }
  }

  /** ... and only one. */
  lemma {:induction false} NumberOfNth(w: nat, k: nat)
    requires w > 0
    ensures Digits(w, NthPath(w, k).slots) && Number(w, NthPath(w, k)) == k
  {
    NthIsPath(w, k);
    hide Item, OfItem, Start;
    if k >= 2 {
      var h, i := Item(w, k - 2), OfItem(w, k - 2);
      var q := NthPath(w, h);
      NumberOfNth(w, h);
      TurnOf(w, Start(w, q), i);
      assert NthPath(w, k).slots[..|q.slots|] == q.slots;
    }
  }

  // ----- the queue

  function Min(a: nat, b: nat): nat {
    if a < b then a else b
  }

  /** How many paths are noted after `m` slots: one for each, as long as the path it was for is short enough. */
  function Noted(w: nat, m: nat): nat {
    Min(2 + m, Total(w, MAX_BFS_PATH_LEN - 1))
  }

  /** How many slots are looked at in all before the search gives up: those of every path of up to four slots if
      the queue has room for them, which it has for up to three slots a bucket; else until the queue is full. */
  function Looks(w: nat): nat
    requires w > 0
  {
    if w <= 3 then w * Total(w, MAX_BFS_PATH_LEN - 1) else QUEUE - 1 + (QUEUE - 3) / (w - 1)
  }

  /** The search has come to item `h`, and its queue has not been full. */
  predicate Underway(w: nat, h: nat) {
    h <= Total(w, MAX_BFS_PATH_LEN - 1) && (w > 3 ==> (w - 1) * h <= QUEUE - 3)
  }

  const LONGEST: nat := MAX_BFS_PATH_LEN - 1

  lemma StartsUnderway(w: nat)
    ensures Underway(w, 0) && Noted(w, 0) == 2
  {
    CostPositive(w, LONGEST);
    assert (w - 1) * 0 == 0;
  }

  /** A slot of a path that is not too long adds one, any other none. */
  lemma NotedMore(w: nat, h: nat, i: nat)
    requires i < w
    ensures h < Total(w, LONGEST - 1) ==> Noted(w, SlotsBefore(w, h) + i) == 2 + SlotsBefore(w, h) + i
    ensures Noted(w, SlotsBefore(w, h) + i + 1) ==
              Noted(w, SlotsBefore(w, h) + i) + if h < Total(w, LONGEST - 1) then 1 else 0
  {
    var t := Total(w, LONGEST - 1);
    TotalStep(w, LONGEST);
    hide Total;
    if h < t {
      MulGrows(h + 1, t, w);
    } else {
      MulGrows(t, h, w);
    }
    assert (h + 1) * w == w * h + w && t * w == w * t && h * w == w * h;
  }

  lemma WideTotal(w: nat)
    requires w > 3
    ensures Total(w, LONGEST) >= 2 + w * 170
  {
    assert Cost(w, 1) == 1 + w * 1;
    MulGrows(5, Cost(w, 1), w);
    assert Cost(w, 2) >= 21;
    MulGrows(21, Cost(w, 2), w);
    assert Cost(w, 3) >= 85;
    MulGrows(85, Cost(w, 3), w);
    assert Cost(w, 4) == 1 + w * Cost(w, 3);
  }

  lemma NarrowTotal(w: nat)
    requires w <= 3
    ensures Total(w, LONGEST) <= 242
  {
    assert Cost(w, 1) == 1 + w;
    assert Cost(w, 2) <= 13 && Cost(w, 3) <= 40 && Cost(w, 4) <= 121;
  }

  /** With more than three slots a bucket the queue is full before paths get too long. */
  lemma Wide(w: nat, h: nat, i: nat)
    requires w > 3 && Underway(w, h) && i <= w
    ensures Noted(w, SlotsBefore(w, h) + i) == 2 + SlotsBefore(w, h) + i
    ensures SlotsBefore(w, h) == (w - 1) * h + h
  {
    MulGrows(3, w - 1, h);
    WideTotal(w);
    MulGrows(h + 1, 170, w);
    assert (h + 1) * w == w * h + w && (w - 1) * h == w * h - h;
  }

  lemma QuotientIs(n: nat, d: nat, h: nat)
    requires d * h <= n < d * h + d
    ensures n / d == h
  {
    DivMod(h, d, n - d * h);
    assert h * d == d * h;
  }

  lemma QuotientAtLeast(n: nat, d: nat, h: nat)
    requires d > 0 && d * h <= n
    ensures h <= n / d
  {
    ItemBound(d, n);
    if h > n / d {
      MulGrows(n / d + 1, h, d);
    }
  }

  /** When the queue is full, that was the last slot. */
  lemma FullAtLast(w: nat, h: nat, i: nat)
    requires Underway(w, h) && 0 < i <= w && Noted(w, SlotsBefore(w, h) + i) == QUEUE + h + 1
    ensures SlotsBefore(w, h) + i == Looks(w)
  {
    hide Total;
    if w <= 3 {
      NarrowTotal(w);
    } else {
      Wide(w, h, i);
      QuotientIs(QUEUE - 3, w - 1, h);
    }
  }

  /** When it is empty, too. */
  lemma EmptyAtLast(w: nat, h: nat)
    requires w > 0 && Underway(w, h) && Noted(w, SlotsBefore(w, h)) == h
    ensures SlotsBefore(w, h) == Looks(w)
  {
    hide Total;
    if w > 3 {
      Wide(w, h, 0);
    } else {
      MulGrows(1, w, h);
    }
  }

  /** Before that, it was not. */
  lemma NotLast(w: nat, h: nat, i: nat)
    requires Underway(w, h) && i < w && h < Total(w, LONGEST) && Noted(w, SlotsBefore(w, h) + i) < QUEUE + h + 1
    ensures SlotsBefore(w, h) + i < Looks(w)
  {
    hide Total;
    if w > 3 {
      Wide(w, h, i);
      QuotientAtLeast(QUEUE - 3, w - 1, h);
    } else {
      MulGrows(h + 1, Total(w, LONGEST), w);
      assert (h + 1) * w == w * h + w && Total(w, LONGEST) * w == w * Total(w, LONGEST);
    }
  }

  lemma StaysUnderway(w: nat, h: nat)
    requires w > 0 && Underway(w, h) && h < Total(w, LONGEST) && Noted(w, SlotsBefore(w, h) + w) < QUEUE + h + 1
    ensures Underway(w, h + 1) && SlotsBefore(w, h + 1) == SlotsBefore(w, h) + w
  {
    hide Total;
    if w > 3 {
      Wide(w, h, w);
      assert (w - 1) * (h + 1) == (w - 1) * h + w - 1;
    }
  }
}
