/** Every interleaving of the cuckoo map's locked steps, doublings included. */
module CuckooRuns {
  import opened CuckooIndex
  import opened Cuckoo
  import opened Options

  /** One critical section. A thread's local data (the mask it read, the path it searched) are the
      action's arguments: they may be anything a thread could have seen at any earlier time. */
  datatype Action<K, V> =
    | DoInsert(key: K, val: V)
    | DoHop(mask: Word, from: Record, slot: nat)
    | DoFinish(mask: Word, key: K, val: V, last: Option<(Record, nat)>, place: Place)
    | DoDelete(key: K)
    | DoUpdate(key: K, val: V)
    | DoFind(key: K)
    | DoStartDoubling
    | DoSplit(bucket: Word)
    | DoEndDoubling

  /** The locks the section needs can be taken, and its arguments come from the code that leads to it. */
  ghost predicate Enabled<K, V>(t: Table<K, V>, a: Action<K, V>) {
    match a
    case DoInsert(k, _) => Open(t, First(t, k)) && Open(t, Second(t, k))
    case DoDelete(k) => Open(t, First(t, k)) && Open(t, Second(t, k))
    case DoUpdate(k, _) => Open(t, First(t, k)) && Open(t, Second(t, k))
    case DoFind(k) => Open(t, First(t, k)) && Open(t, Second(t, k))
    case DoHop(_, from, ts) => ts < t.width && Open(t, from.bucket) && Open(t, Target(t, from))
    case DoFinish(m, k, _, last, p) =>
      && Open(t, First(t, k)) && Open(t, Second(t, k))
      && (m == t.mask ==> PathEnd(t, k, last, p))
      && (last.Some? ==> last.value.1 < t.width && Open(t, Target(t, last.value.0)))
    case DoStartDoubling => !t.growing && IsMask(NextMask(t.mask))
    case DoSplit(b) => t.growing && InRange(t.oldmask, b) && b !in t.done
    case DoEndDoubling => t.growing && forall b :: InRange(t.oldmask, b) ==> b in t.done
  }

  /** A section that finds the mask changed since its thread read it gives up. */
  function Next<K, V>(t: Table<K, V>, a: Action<K, V>): (Status, Table<K, V>) {
    match a
    case DoInsert(k, v) => Insert(t, k, v)
    case DoHop(m, from, ts) => if m != t.mask then (Invalid, t) else Hop(t, from, ts)
    case DoFinish(m, k, v, last, p) => if m != t.mask then (Invalid, t) else HopAndInsert(t, k, v, last, p)
    case DoDelete(k) => Delete(t, k)
    case DoUpdate(k, v) => Update(t, k, v)
    case DoFind(k) => (if Find(t, k).Some? then Ok else NotFound, t)
    case DoStartDoubling => (Ok, StartDoubling(t))
    case DoSplit(b) => (Ok, SplitBucket(t, b))
    case DoEndDoubling => (Ok, EndDoubling(t))
  }

  /** The value a lookup copies out, if it finds the key; no other section hands one out. */
  function Read<K, V>(t: Table<K, V>, a: Action<K, V>): Option<V> {
    if !a.DoFind? then None
    else match Find(t, a.key)
      case Some(p) => if p in t.slots then Some(t.slots[p].val) else None
      case None => None
  }

  /** The same on a map: the answer, the value handed out and the new map a caller may see. */
  ghost predicate MapStep<K, V>(m: map<K, V>, a: Action<K, V>, st: Status, got: Option<V>, m': map<K, V>) {
    match a
    case DoFind(k) => (st == Ok <==> k in m) && got == (if k in m then Some(m[k]) else None) && m' == m
    case DoInsert(k, v) =>
      (st == Duplicated <==> k in m) && m' == if st == Ok then m[k := v] else m
    case DoFinish(_, k, v, _, _) =>
      && (st == Ok ==> k !in m) && (st == Duplicated ==> k in m)
      && m' == if st == Ok then m[k := v] else m
    case DoDelete(k) => (st == Ok <==> k in m) && m' == m - {k}
    case DoUpdate(k, v) => (st == Ok <==> k in m) && m' == if k in m then m[k := v] else m
    case _ => m' == m
  }

  /** One critical section keeps the invariant and is atomically its map operation. A hop, or the end of an insertion,
      gives up only for what it finds: another mask, the item to be moved gone or replaced, a target taken, or the key
      itself. */
  lemma StepRefines<K, V>(t: Table<K, V>, a: Action<K, V>)
    requires Inv(t) && Enabled(t, a)
    ensures Inv(Next(t, a).1)
    ensures MapStep(Contents(t.slots), a, Next(t, a).0, Read(t, a), Contents(Next(t, a).1.slots))
    ensures a.DoHop? ==> (Next(t, a).0 == Ok <==> a.mask == t.mask && CanMove(t, a.from, a.slot))
    ensures a.DoFinish? ==>
              (Next(t, a).0 == Ok <==>
                 && a.mask == t.mask && a.key !in Contents(t.slots)
                 && if a.last.Some? then CanMove(t, a.last.value.0, a.last.value.1) else a.place !in t.slots)
  {
    hide Inv, Contents, CanMove, First, Second, Open, Target, HopAndInsert, Insert, Delete, Update, Hop;
    match a {
      case DoInsert(k, v) => InsertKeeps(t, k, v);
      case DoHop(m, from, ts) => if m == t.mask { HopKeeps(t, from, ts); }
      case DoFinish(m, k, v, last, p) => if m == t.mask { HopAndInsertKeeps(t, k, v, last, p); }
      case DoDelete(k) => DeleteKeeps(t, k);
      case DoUpdate(k, v) => UpdateKeeps(t, k, v);
      case DoFind(k) => FindAnswers(t, k);
      case DoStartDoubling => StartDoublingKeeps(t);
      case DoSplit(b) => SplitBucketKeeps(t, b);
      case DoEndDoubling => EndDoublingKeeps(t);
    }
  }

  /** A run of the table: the steps taken and the tables they lead through. */
  ghost predicate IsRun<K, V>(tables: seq<Table<K, V>>, actions: seq<Action<K, V>>) {
    && |tables| == |actions| + 1
    && Init(tables[0])
    && forall j: nat :: j < |actions| ==> StepTaken(tables, actions, j)
  }

  ghost predicate StepTaken<K, V>(tables: seq<Table<K, V>>, actions: seq<Action<K, V>>, j: nat)
    requires j < |actions| == |tables| - 1
  {
    Enabled(tables[j], actions[j]) && tables[j + 1] == Next(tables[j], actions[j]).1
  }

  predicate Init<K, V>(t: Table<K, V>) {
    IsMask(t.mask) && t.slots == map[] && t.inserts == 0 && t.deletes == 0 && !t.growing
  }

  /** What an answer means for the map. */
  function MapNext<K, V>(m: map<K, V>, a: Action<K, V>, st: Status): map<K, V> {
    if st != Ok then m
    else match a
      case DoInsert(k, v) => m[k := v]
      case DoFinish(_, k, v, _, _) => m[k := v]
      case DoDelete(k) => m - {k}
      case DoUpdate(k, v) => m[k := v]
      case _ => m
  }

  lemma MapStepIsNext<K, V>(m: map<K, V>, a: Action<K, V>, st: Status, got: Option<V>, m': map<K, V>)
    requires MapStep(m, a, st, got, m')
    ensures m' == MapNext(m, a, st)
  {
    if a.DoDelete? && st != Ok {
      assert m - {a.key} == m;
    }
  }

  /** The map every caller sees, step by step. */
  ghost function MapAfter<K, V>(tables: seq<Table<K, V>>, actions: seq<Action<K, V>>, i: nat): map<K, V>
    requires |tables| == |actions| + 1 && i <= |actions|
  {
    if i == 0 then map[]
    else MapNext(MapAfter(tables, actions, i - 1), actions[i - 1], Next(tables[i - 1], actions[i - 1]).0)
  }

  /** The answer of the step after the first `j` is what a plain map would give at that moment, and so are the value
      it hands out and the map it leaves behind. */
  ghost predicate Answered<K, V>(tables: seq<Table<K, V>>, actions: seq<Action<K, V>>, j: nat)
    requires |tables| == |actions| + 1
  {
    j < |actions| &&
    MapStep(MapAfter(tables, actions, j), actions[j], Next(tables[j], actions[j]).0, Read(tables[j], actions[j]),
            MapAfter(tables, actions, j + 1))
  }

  ghost predicate AllAnswered<K, V>(tables: seq<Table<K, V>>, actions: seq<Action<K, V>>, i: nat)
    requires |tables| == |actions| + 1
  {
    forall j: nat :: j < i ==> Answered(tables, actions, j)
  }

  lemma RunStarts<K, V>(tables: seq<Table<K, V>>, actions: seq<Action<K, V>>)
    requires IsRun(tables, actions)
    ensures |tables| > 0 && Inv(tables[0]) && Contents(tables[0].slots) == MapAfter(tables, actions, 0)
    ensures AllAnswered(tables, actions, 0) && tables[0].inserts - tables[0].deletes == |Contents(tables[0].slots)|
  {
  }

  /** Every run is a run of a plain map, in the order of the critical sections: each answer is the map's, the
      table stands for the map they build, keys are in one slot each, and the item count is exact. */
  lemma {:induction false} RunRefines<K, V>(tables: seq<Table<K, V>>, actions: seq<Action<K, V>>, i: nat)
    requires IsRun(tables, actions) && i <= |actions|
    ensures Inv(tables[i])
    ensures Contents(tables[i].slots) == MapAfter(tables, actions, i)
    ensures AllAnswered(tables, actions, i)
    ensures tables[i].inserts - tables[i].deletes == |Contents(tables[i].slots)|
  {
    hide Inv, Contents, MapAfter, AllAnswered, Init, StepTaken;
    if i == 0 {
      RunStarts(tables, actions);
    } else {
      var n := i - 1;
      RunRefines(tables, actions, n);
      RunStep(tables, actions, n);
    }
  }

  lemma RunStep<K, V>(tables: seq<Table<K, V>>, actions: seq<Action<K, V>>, j: nat)
    requires IsRun(tables, actions) && j < |actions|
    requires Inv(tables[j]) && Contents(tables[j].slots) == MapAfter(tables, actions, j)
    ensures Inv(tables[j + 1]) && Contents(tables[j + 1].slots) == MapAfter(tables, actions, j + 1)
    ensures AllAnswered(tables, actions, j) ==> AllAnswered(tables, actions, j + 1)
    ensures tables[j + 1].inserts - tables[j + 1].deletes == |Contents(tables[j + 1].slots)|
  {
    hide Inv, Contents, Next, Read, Enabled, MapNext, MapStep;
    var t, a := tables[j], actions[j];
    assert StepTaken(tables, actions, j);
    StepRefines(t, a);
    MapStepIsNext(Contents(t.slots), a, Next(t, a).0, Read(t, a), Contents(Next(t, a).1.slots));
    InvCount(Next(t, a).1);
  }

  lemma InvCount<K, V>(t: Table<K, V>)
    requires Inv(t)
    ensures t.inserts - t.deletes == |Contents(t.slots)|
  {
    CountKeys(t.slots);
  }

  /** As many keys as occupied slots. */
  lemma {:induction false} CountKeys<K, V>(slots: map<Place, Entry<K, V>>)
    requires Unique(slots)
    ensures |Contents(slots)| == |slots|
    decreases |slots|
  {
    if slots == map[] {
      assert Contents(slots) == map[];
    } else {
      hide Unique, Contents;
      var p :| p in slots;
      UniqueDrop(slots, p);
      CountKeys(slots - {p});
      ContentsAt(slots, p);
      OneKeyLess(Contents(slots), slots[p].key);
    }
  }

  lemma OneKeyLess<K, V>(m: map<K, V>, k: K)
    requires k in m
    ensures |m - {k}| == |m| - 1
  {
    assert m.Keys == (m - {k}).Keys + {k};
  }
}
