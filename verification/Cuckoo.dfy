/** The cuckoo hash map's table and its lock-protected steps. Each function below is what one thread does
    while it holds the locks of the buckets it touches; `CuckooRuns` interleaves them. */
module Cuckoo {
  import opened CuckooIndex
  import opened Options

  datatype Entry<K, V> = Entry(key: K, val: V, partial: Tag)

  /** A slot of the bucket array. */
  type Place = (Word, nat)

  /** `slots` holds the occupied slots. While the table is doubling, `done` are the old buckets already
      split, and the locks of the others are still held by the thread that doubles. */
  datatype Table<!K(==), V> = Table(
    hash: K -> Word, width: nat, simple: bool,
    mask: Word, slots: map<Place, Entry<K, V>>, inserts: int, deletes: int,
    growing: bool, oldmask: Word, done: set<Word>)

  datatype Status = Ok | Duplicated | NotFound | NeedsCuckoo | Invalid | TableFull

  function First<K, V>(t: Table<K, V>, key: K): Word {
    IndexHash(t.mask, t.hash(key))
  }

  function Second<K, V>(t: Table<K, V>, key: K): Word {
    AltIndex(t.mask, PartialKey(t.hash(key)), First(t, key))
  }

  /** The bucket's lock can be had: it is not one the doubling thread still holds. */
  predicate Open<K, V>(t: Table<K, V>, b: Word) {
    t.growing ==> IndexHash(t.oldmask, b) in t.done
  }

  /** The test every bucket scan makes on an occupied slot. */
  predicate Matches<K(==), V>(t: Table<K, V>, e: Entry<K, V>, key: K) {
    (t.simple || e.partial == PartialKey(t.hash(key))) && e.key == key
  }

  /** The first slot from `s` on that holds the key. */
  function Scan<K, V>(t: Table<K, V>, b: Word, key: K, s: nat): Option<nat>
    decreases t.width - s
  {
    if s >= t.width then None
    else if (b, s) in t.slots && Matches(t, t.slots[(b, s)], key) then Some(s)
    else Scan(t, b, key, s + 1)
  }

  /** The first free slot from `s` on. */
  function Free<K, V>(t: Table<K, V>, b: Word, s: nat): Option<nat>
    decreases t.width - s
  {
    if s >= t.width then None else if (b, s) !in t.slots then Some(s) else Free(t, b, s + 1)
  }

  predicate Contains<K, V>(t: Table<K, V>, key: K) {
    Scan(t, First(t, key), key, 0).Some? || Scan(t, Second(t, key), key, 0).Some?
  }

  /** Where the key was found: in its first bucket before its second. */
  function Find<K, V>(t: Table<K, V>, key: K): Option<Place> {
    match Scan(t, First(t, key), key, 0)
    case Some(s) => Some((First(t, key), s))
    case None =>
      match Scan(t, Second(t, key), key, 0)
      case Some(s) => Some((Second(t, key), s))
      case None => None
  }

  function Add<K, V>(t: Table<K, V>, p: Place, key: K, val: V): Table<K, V> {
    t.(slots := t.slots[p := Entry(key, val, PartialKey(t.hash(key)))], inserts := t.inserts + 1)
  }

  /** `cuckoo_insert` up to the point where it has to displace something. */
  function Insert<K, V>(t: Table<K, V>, key: K, val: V): (Status, Table<K, V>) {
    if Contains(t, key) then (Duplicated, t)
    else match Free(t, First(t, key), 0)
      case Some(s) => (Ok, Add(t, (First(t, key), s), key, val))
      case None =>
        match Free(t, Second(t, key), 0)
        case Some(s) => (Ok, Add(t, (Second(t, key), s), key, val))
        case None => (NeedsCuckoo, t)
  }

  /** One position of a cuckoo path, as the search recorded it; it may be out of date. */
  datatype Record = Record(bucket: Word, slot: nat, hv: Word)

  /** Where the search says the recorded item would go. */
  function Target<K, V>(t: Table<K, V>, from: Record): Word {
    AltIndex(t.mask, PartialKey(from.hv), from.bucket)
  }

  /** The revalidation of `cuckoopath_move`. */
  predicate CanMove<K, V>(t: Table<K, V>, from: Record, ts: nat) {
    && (from.bucket, from.slot) in t.slots
    && t.hash(t.slots[(from.bucket, from.slot)].key) == from.hv
    && (Target(t, from), ts) !in t.slots
  }

  function Move<K, V>(t: Table<K, V>, p: Place, q: Place): Table<K, V>
    requires p in t.slots
  {
    t.(slots := (t.slots - {p})[q := t.slots[p]])
  }

  /** One hop along a path. */
  function Hop<K, V>(t: Table<K, V>, from: Record, ts: nat): (Status, Table<K, V>) {
    if CanMove(t, from, ts) then (Ok, Move(t, (from.bucket, from.slot), (Target(t, from), ts))) else (Invalid, t)
  }

  /** The end of a path: the last hop frees a slot in one of the key's own buckets, whose locks stay held,
      and the key is looked for again before it is put there. With no hop the slot must be free by itself. */
  function HopAndInsert<K, V>(t: Table<K, V>, key: K, val: V, last: Option<(Record, nat)>, p: Place)
    : (Status, Table<K, V>)
  {
    var (st, t1) :=
      match last
      case Some((from, ts)) => Hop(t, from, ts)
      case None => if p in t.slots then (Invalid, t) else (Ok, t);
    if st != Ok then (st, t)
    else if Contains(t1, key) then (Duplicated, t1)
    else (Ok, Add(t1, p, key, val))
  }

  /** What the insertion path hands over: a slot in one of the key's buckets, the one the last hop empties. */
  predicate PathEnd<K, V>(t: Table<K, V>, key: K, last: Option<(Record, nat)>, p: Place) {
    && (p.0 == First(t, key) || p.0 == Second(t, key))
    && p.1 < t.width
    && (last.Some? ==> last.value.0.bucket == p.0 && last.value.0.slot == p.1)
  }

  function Delete<K, V>(t: Table<K, V>, key: K): (Status, Table<K, V>) {
    match Find(t, key)
    case None => (NotFound, t)
    case Some(p) => (Ok, t.(slots := t.slots - {p}, deletes := t.deletes + 1))
  }

  function Update<K, V>(t: Table<K, V>, key: K, val: V): (Status, Table<K, V>) {
    match Find(t, key)
    case None => (NotFound, t)
    case Some(p) =>
      if p in t.slots then (Ok, t.(slots := t.slots[p := t.slots[p].(val := val)])) else (NotFound, t)
  }

  /** The bucket has no free slot. */
  ghost predicate Full<K, V>(t: Table<K, V>, b: Word) {
    forall s :: 0 <= s < t.width ==> (b, s) in t.slots
  }

  // ----- the invariant

  /** The entry carries its key's partial and lies in one of its key's two buckets for this mask. */
  predicate AtHome<K, V>(t: Table<K, V>, mask: Word, b: Word, e: Entry<K, V>) {
    var hv := t.hash(e.key);
    && e.partial == PartialKey(hv)
    && (b == IndexHash(mask, hv) || b == AltIndex(mask, PartialKey(hv), IndexHash(mask, hv)))
  }

  ghost predicate Placed<K, V>(t: Table<K, V>, p: Place)
    requires p in t.slots
  {
    && p.1 < t.width
    && InRange(t.mask, p.0)
    && if Open(t, p.0) then AtHome(t, t.mask, p.0, t.slots[p])
       else InRange(t.oldmask, p.0) && AtHome(t, t.oldmask, p.0, t.slots[p])
  }

  ghost predicate Inv<K, V>(t: Table<K, V>) {
    && IsMask(t.mask)
    && (t.growing ==> IsMask(t.oldmask) && t.mask == NextMask(t.oldmask))
    && (forall p :: p in t.slots ==> Placed(t, p))
    && Unique(t.slots)
    && t.inserts - t.deletes == |t.slots|
  }

  /** No key is in two slots. */
  ghost predicate Unique<K, V>(slots: map<Place, Entry<K, V>>) {
    forall p, q :: p in slots && q in slots && slots[p].key == slots[q].key ==> p == q
  }

  ghost function StoredKeys<K, V>(slots: map<Place, Entry<K, V>>): set<K> {
    set p | p in slots :: slots[p].key
  }

  ghost function PlaceOf<K, V>(slots: map<Place, Entry<K, V>>, key: K): (p: Place)
    requires key in StoredKeys(slots)
    ensures p in slots && slots[p].key == key
  {
    var p :| p in slots && slots[p].key == key;
    p
  }

  /** The map the slots stand for. */
  ghost function Contents<K, V>(slots: map<Place, Entry<K, V>>): map<K, V> {
    map k | k in StoredKeys(slots) :: slots[PlaceOf(slots, k)].val
  }

  lemma ContentsAt<K, V>(slots: map<Place, Entry<K, V>>, p: Place)
    requires Unique(slots) && p in slots
    ensures slots[p].key in Contents(slots) && Contents(slots)[slots[p].key] == slots[p].val
  {
  }

  lemma ContentsPlace<K, V>(slots: map<Place, Entry<K, V>>, key: K)
    requires key in Contents(slots)
    ensures key in StoredKeys(slots)
    ensures PlaceOf(slots, key) in slots && slots[PlaceOf(slots, key)].key == key
  {
  }

  // ----- scans

  lemma {:induction false} ScanFinds<K, V>(t: Table<K, V>, b: Word, key: K, s: nat)
    ensures Scan(t, b, key, s).Some? ==>
              var i := Scan(t, b, key, s).value;
              && s <= i < t.width && (b, i) in t.slots && Matches(t, t.slots[(b, i)], key)
              && forall j :: s <= j < i && (b, j) in t.slots ==> !Matches(t, t.slots[(b, j)], key)
    ensures Scan(t, b, key, s).None? ==>
              forall i :: s <= i < t.width && (b, i) in t.slots ==> !Matches(t, t.slots[(b, i)], key)
    decreases t.width - s
  {
    if s < t.width && !((b, s) in t.slots && Matches(t, t.slots[(b, s)], key)) {
      ScanFinds(t, b, key, s + 1);
    }
  }

  lemma {:induction false} FreeIsFree<K, V>(t: Table<K, V>, b: Word, s: nat)
    ensures Free(t, b, s).Some? ==>
              && s <= Free(t, b, s).value < t.width && (b, Free(t, b, s).value) !in t.slots
              && forall i :: s <= i < Free(t, b, s).value ==> (b, i) in t.slots
    ensures Free(t, b, s).None? ==> forall i :: s <= i < t.width ==> (b, i) in t.slots
    decreases t.width - s
  {
    if s < t.width && (b, s) in t.slots {
      FreeIsFree(t, b, s + 1);
    }
  }

  // ----- what the scans mean under the invariant

  /** A stored key whose two buckets can be locked lies in one of them, even in the middle of a doubling. */
  lemma KeyIsHere<K, V>(t: Table<K, V>, p: Place, key: K)
    requires Inv(t) && p in t.slots && t.slots[p].key == key
    requires Open(t, First(t, key)) && Open(t, Second(t, key))
    ensures p.0 == First(t, key) || p.0 == Second(t, key)
    ensures p.1 < t.width && Matches(t, t.slots[p], key)
  {
    hide IndexHash, AltIndex, TagHash, PartialKey, IsMask, NextMask;
    var hv := t.hash(key);
    assert Placed(t, p);
    if !Open(t, p.0) {
      IndexGrows(t.oldmask, hv);
      AltIndexGrows(t.oldmask, hv, PartialKey(hv));
    }
  }

  lemma ContainsKey<K, V>(t: Table<K, V>, key: K)
    requires Inv(t) && Open(t, First(t, key)) && Open(t, Second(t, key))
    ensures Contains(t, key) <==> key in Contents(t.slots)
    ensures Contains(t, key) <==> Find(t, key).Some?
    ensures Find(t, key).Some? ==> Find(t, key).value in t.slots && t.slots[Find(t, key).value].key == key
  {
    hide IndexHash, AltIndex, TagHash, PartialKey, IsMask, NextMask, First, Second;
    ScanFinds(t, First(t, key), key, 0);
    ScanFinds(t, Second(t, key), key, 0);
    forall p | p in t.slots && t.slots[p].key == key
      ensures Contains(t, key)
    {
      KeyIsHere(t, p, key);
      assert p == (p.0, p.1);
    }
  }

  lemma KeyBuckets<K, V>(t: Table<K, V>, key: K)
    ensures InRange(t.mask, First(t, key)) && InRange(t.mask, Second(t, key))
  {
    IndexInRange(t.mask, t.hash(key));
    AltInRange(t.mask, PartialKey(t.hash(key)), First(t, key));
  }

  // ----- every step keeps the invariant and does to the map what it says

  lemma UniquePutKeys<K, V>(slots: map<Place, Entry<K, V>>, p: Place, e: Entry<K, V>)
    requires Unique(slots) && p !in slots && e.key !in Contents(slots)
    ensures Unique(slots[p := e])
    ensures |slots[p := e]| == |slots| + 1
  {
    var slots' := slots[p := e];
    forall q, r | q in slots' && r in slots' && slots'[q].key == slots'[r].key
      ensures q == r
    {
      if q != p { ContentsAt(slots, q); }
      if r != p { ContentsAt(slots, r); }
    }
    assert slots'.Keys == slots.Keys + {p};
  }

  lemma UniquePut<K, V>(slots: map<Place, Entry<K, V>>, p: Place, e: Entry<K, V>)
    requires Unique(slots) && p !in slots && e.key !in Contents(slots)
    ensures Unique(slots[p := e])
    ensures Contents(slots[p := e]) == Contents(slots)[e.key := e.val]
    ensures |slots[p := e]| == |slots| + 1
  {
    UniquePutKeys(slots, p, e);
    var slots' := slots[p := e];
    hide Contents, Unique;
    forall k | k in Contents(slots')
      ensures k in Contents(slots)[e.key := e.val] && Contents(slots)[e.key := e.val][k] == Contents(slots')[k]
    {
      ContentsPlace(slots', k);
      var q := PlaceOf(slots', k);
      ContentsAt(slots', q);
      if q != p { ContentsAt(slots, q); }
    }
    forall k | k in Contents(slots)[e.key := e.val]
      ensures k in Contents(slots')
    {
      if k != e.key {
        ContentsPlace(slots, k);
        ContentsAt(slots', PlaceOf(slots, k));
      } else {
        ContentsAt(slots', p);
      }
    }
  }

  lemma UniqueDrop<K, V>(slots: map<Place, Entry<K, V>>, p: Place)
    requires Unique(slots) && p in slots
    ensures Unique(slots - {p})
    ensures Contents(slots - {p}) == Contents(slots) - {slots[p].key}
    ensures |slots - {p}| == |slots| - 1
    ensures slots[p].key !in Contents(slots - {p})
  {
    var slots' := slots - {p};
    forall k | k in Contents(slots')
      ensures k in Contents(slots) && k != slots[p].key && Contents(slots)[k] == Contents(slots')[k]
    {
      var q := PlaceOf(slots', k);
      ContentsAt(slots', q);
      ContentsAt(slots, q);
    }
    forall k | k in Contents(slots) - {slots[p].key}
      ensures k in Contents(slots')
    {
      ContentsAt(slots', PlaceOf(slots, k));
    }
    assert slots'.Keys == slots.Keys - {p};
  }

  /** Moving an entry from one slot to another leaves the map as it was. */
  lemma UniqueMove<K, V>(slots: map<Place, Entry<K, V>>, p: Place, q: Place)
    requires Unique(slots) && p in slots && q !in slots
    ensures Unique((slots - {p})[q := slots[p]])
    ensures Contents((slots - {p})[q := slots[p]]) == Contents(slots)
    ensures |(slots - {p})[q := slots[p]]| == |slots|
  {
    UniqueDrop(slots, p);
    UniquePut(slots - {p}, q, slots[p]);
    ContentsAt(slots, p);
  }

  lemma StillPlaced<K, V>(t: Table<K, V>, t': Table<K, V>, p: Place)
    requires p in t.slots && p in t'.slots && Placed(t, p)
    requires t'.slots[p].key == t.slots[p].key && t'.slots[p].partial == t.slots[p].partial
    requires t'.hash == t.hash && t'.width == t.width && t'.mask == t.mask
    requires t'.growing == t.growing && t'.oldmask == t.oldmask && t'.done == t.done
    ensures Placed(t', p)
  {
  }

  lemma InvFromParts<K, V>(t: Table<K, V>, t': Table<K, V>)
    requires Inv(t)
    requires t'.hash == t.hash && t'.width == t.width && t'.mask == t.mask
    requires t'.growing == t.growing && t'.oldmask == t.oldmask && t'.done == t.done
    requires forall p :: p in t'.slots ==> Placed(t', p)
    requires Unique(t'.slots) && t'.inserts - t'.deletes == |t'.slots|
    ensures Inv(t')
  {
  }

  lemma AddKeeps<K, V>(t: Table<K, V>, p: Place, key: K, val: V)
    requires Inv(t) && p !in t.slots && key !in Contents(t.slots)
    requires p.1 < t.width && Open(t, p.0)
    requires p.0 == First(t, key) || p.0 == Second(t, key)
    ensures Inv(Add(t, p, key, val))
    ensures Contents(Add(t, p, key, val).slots) == Contents(t.slots)[key := val]
  {
    hide IndexHash, AltIndex, PartialKey, IsMask, NextMask;
    KeyBuckets(t, key);
    UniquePut(t.slots, p, Entry(key, val, PartialKey(t.hash(key))));
    var t' := Add(t, p, key, val);
    forall q | q in t'.slots
      ensures Placed(t', q)
    {
      assert q != p ==> Placed(t, q);
    }
  }

  lemma InsertKeeps<K, V>(t: Table<K, V>, key: K, val: V)
    requires Inv(t) && Open(t, First(t, key)) && Open(t, Second(t, key))
    ensures var (st, t') := Insert(t, key, val);
      && Inv(t')
      && (st == Duplicated <==> key in Contents(t.slots))
      && Contents(t'.slots) == (if st == Ok then Contents(t.slots)[key := val] else Contents(t.slots))
      && (st != Ok ==> t' == t)
      && (st == NeedsCuckoo <==> key !in Contents(t.slots) && Full(t, First(t, key)) && Full(t, Second(t, key)))
  {
    hide IndexHash, AltIndex, PartialKey, IsMask, NextMask, First, Second, Inv;
    ContainsKey(t, key);
    FreeIsFree(t, First(t, key), 0);
    FreeIsFree(t, Second(t, key), 0);
    if !Contains(t, key) {
      if Free(t, First(t, key), 0).Some? {
        AddKeeps(t, (First(t, key), Free(t, First(t, key), 0).value), key, val);
      } else if Free(t, Second(t, key), 0).Some? {
        AddKeeps(t, (Second(t, key), Free(t, Second(t, key), 0).value), key, val);
      }
    }
  }

  /** Where the direct insertion puts the key: in its first bucket, or, if that is full, in its second, at the first
      free slot; every other slot stays as it is. */
  lemma InsertPlace<K, V>(t: Table<K, V>, key: K, val: V) returns (p: Place)
    requires Insert(t, key, val).0 == Ok
    ensures p.0 == (if Full(t, First(t, key)) then Second(t, key) else First(t, key)) && p.1 < t.width
    ensures p !in t.slots && forall s :: 0 <= s < p.1 ==> (p.0, s) in t.slots
    ensures Insert(t, key, val).1.slots == t.slots[p := Entry(key, val, PartialKey(t.hash(key)))]
    ensures Insert(t, key, val).1.inserts == t.inserts + 1 && Insert(t, key, val).1.deletes == t.deletes
  {
    hide IndexHash, AltIndex, PartialKey, First, Second;
    var b := if Full(t, First(t, key)) then Second(t, key) else First(t, key);
    FreeIsFree(t, First(t, key), 0);
    FreeIsFree(t, Second(t, key), 0);
    p := (b, Free(t, b, 0).value);
  }

  /** A hop moves an item to its other bucket, and only there; the map does not change. */
  lemma HopKeeps<K, V>(t: Table<K, V>, from: Record, ts: nat)
    requires Inv(t) && ts < t.width && Open(t, from.bucket) && Open(t, Target(t, from))
    ensures var (st, t') := Hop(t, from, ts);
      && Inv(t')
      && Contents(t'.slots) == Contents(t.slots)
      && (st == Ok ==> (from.bucket, from.slot) !in t'.slots)
      && (st == Ok ==>
            var to := (Target(t, from), ts);
            to in t'.slots && t'.slots[to] == t.slots[(from.bucket, from.slot)])
      && (st == Ok || (st == Invalid && t' == t)) && (st == Ok <==> CanMove(t, from, ts))
      && (st == Invalid <==>
            (from.bucket, from.slot) !in t.slots || (Target(t, from), ts) in t.slots
            || t.hash(t.slots[(from.bucket, from.slot)].key) != from.hv)
  {
    if CanMove(t, from, ts) {
      var p, q := (from.bucket, from.slot), (Target(t, from), ts);
      var t' := Move(t, p, q);
      UniqueMove(t.slots, p, q);
      assert Placed(t, p);
      OtherHome(t, p);
      MovedPlaced(t, p, q);
      InvFromParts(t, t');
    }
  }

  lemma MovedPlaced<K, V>(t: Table<K, V>, p: Place, q: Place)
    requires Inv(t) && p in t.slots && q !in t.slots
    requires q.1 < t.width && InRange(t.mask, q.0) && Open(t, q.0) && AtHome(t, t.mask, q.0, t.slots[p])
    ensures forall r :: r in Move(t, p, q).slots ==> Placed(Move(t, p, q), r)
  {
    hide IndexHash, AltIndex, PartialKey, IsMask, NextMask;
    var t' := Move(t, p, q);
    forall r | r in t'.slots
      ensures Placed(t', r)
    {
      if r != q { StillPlaced(t, t', r); }
    }
  }

  lemma OtherHome<K, V>(t: Table<K, V>, p: Place)
    requires p in t.slots && Placed(t, p) && Open(t, p.0)
    ensures var b := AltIndex(t.mask, PartialKey(t.hash(t.slots[p].key)), p.0);
      InRange(t.mask, b) && AtHome(t, t.mask, b, t.slots[p])
  {
    hide IndexHash, AltIndex, PartialKey, IsMask, NextMask;
    var hv := t.hash(t.slots[p].key);
    AltInRange(t.mask, PartialKey(hv), p.0);
    IndexInRange(t.mask, hv);
    AltIndexInvolution(t.mask, PartialKey(hv), IndexHash(t.mask, hv));
  }

  lemma HopAndInsertKeeps<K, V>(t: Table<K, V>, key: K, val: V, last: Option<(Record, nat)>, p: Place)
    requires Inv(t) && Open(t, First(t, key)) && Open(t, Second(t, key)) && PathEnd(t, key, last, p)
    requires last.Some? ==> last.value.1 < t.width && Open(t, Target(t, last.value.0))
    ensures var (st, t') := HopAndInsert(t, key, val, last, p);
      && Inv(t')
      && Contents(t'.slots) == (if st == Ok then Contents(t.slots)[key := val] else Contents(t.slots))
      && (st == Duplicated ==> key in Contents(t.slots))
      && (st == Ok ==> key !in Contents(t.slots)) && st in {Ok, Duplicated, Invalid}
      && (st == Invalid <==> if last.Some? then !CanMove(t, last.value.0, last.value.1) else p in t.slots)
  {
    hide IndexHash, AltIndex, PartialKey, IsMask, NextMask, Inv;
    var (st, t1) :=
      match last
      case Some((from, ts)) => Hop(t, from, ts)
      case None => if p in t.slots then (Invalid, t) else (Ok, t);
    if last.Some? {
      HopKeeps(t, last.value.0, last.value.1);
    }
    if st == Ok {
      ContainsKey(t1, key);
      if !Contains(t1, key) {
        AddKeeps(t1, p, key, val);
      }
    }
  }

  lemma DeleteKeeps<K, V>(t: Table<K, V>, key: K)
    requires Inv(t) && Open(t, First(t, key)) && Open(t, Second(t, key))
    ensures var (st, t') := Delete(t, key);
      && Inv(t')
      && Contents(t'.slots) == Contents(t.slots) - {key}
      && (st == Ok <==> key in Contents(t.slots))
  {
    ContainsKey(t, key);
    hide IndexHash, AltIndex, PartialKey, IsMask, NextMask, First, Second;
    if Find(t, key).Some? {
      var p := Find(t, key).value;
      UniqueDrop(t.slots, p);
      var t' := Delete(t, key).1;
      forall r | r in t'.slots
        ensures Placed(t', r)
      {
        StillPlaced(t, t', r);
      }
      InvFromParts(t, t');
    }
  }

  lemma UpdateKeeps<K, V>(t: Table<K, V>, key: K, val: V)
    requires Inv(t) && Open(t, First(t, key)) && Open(t, Second(t, key))
    ensures var (st, t') := Update(t, key, val);
      && Inv(t')
      && Contents(t'.slots) == (if st == Ok then Contents(t.slots)[key := val] else Contents(t.slots))
      && (st == Ok <==> key in Contents(t.slots))
  {
    ContainsKey(t, key);
    hide IndexHash, AltIndex, PartialKey, IsMask, NextMask, First, Second, Find;
    if Find(t, key).Some? {
      var p := Find(t, key).value;
      SetValue(t, p, val);
      assert Update(t, key, val) == (Ok, t.(slots := t.slots[p := t.slots[p].(val := val)]));
    }
  }

  lemma SetValue<K, V>(t: Table<K, V>, p: Place, val: V)
    requires Inv(t) && p in t.slots
    ensures Inv(t.(slots := t.slots[p := t.slots[p].(val := val)]))
    ensures Contents(t.slots[p := t.slots[p].(val := val)]) == Contents(t.slots)[t.slots[p].key := val]
  {
    hide IndexHash, AltIndex, PartialKey, IsMask, NextMask;
    var t' := t.(slots := t.slots[p := t.slots[p].(val := val)]);
    UniqueSet(t.slots, p, val);
    forall r | r in t'.slots
      ensures Placed(t', r)
    {
      StillPlaced(t, t', r);
    }
    InvFromParts(t, t');
  }

  lemma UniqueSet<K, V>(slots: map<Place, Entry<K, V>>, p: Place, val: V)
    requires Unique(slots) && p in slots
    ensures Unique(slots[p := slots[p].(val := val)])
    ensures Contents(slots[p := slots[p].(val := val)]) == Contents(slots)[slots[p].key := val]
    ensures |slots[p := slots[p].(val := val)]| == |slots|
  {
    hide Contents, Unique;
    var e := slots[p].(val := val);
    var rest := slots - {p};
    UniqueDrop(slots, p);
    UniquePut(rest, p, e);
    assert rest[p := e] == slots[p := e];
    ContentsAt(slots, p);
  }

  /** What `cuckoo_find` answers. */
  lemma FindAnswers<K, V>(t: Table<K, V>, key: K)
    requires Inv(t) && Open(t, First(t, key)) && Open(t, Second(t, key))
    ensures Find(t, key).Some? <==> key in Contents(t.slots)
    ensures Find(t, key).Some? ==>
              Find(t, key).value in t.slots && t.slots[Find(t, key).value].val == Contents(t.slots)[key]
  {
    ContainsKey(t, key);
    if Find(t, key).Some? {
      ContentsAt(t.slots, Find(t, key).value);
    }
  }

  // ----- doubling

  /** `move_buckets` on one item of old bucket `b`: does it go to the bucket above? */
  predicate GoesUp<K, V>(t: Table<K, V>, b: Word, e: Entry<K, V>) {
    var hv := t.hash(e.key);
    var oldFirst := IndexHash(t.oldmask, hv);
    var newFirst := IndexHash(t.mask, hv);
    || (b == oldFirst && newFirst == Upper(t.oldmask, b))
    || (b == AltIndex(t.oldmask, e.partial, oldFirst) && AltIndex(t.mask, e.partial, newFirst) == Upper(t.oldmask, b))
  }

  /** What the source asserts of an item that stays. */
  predicate MayStay<K, V>(t: Table<K, V>, b: Word, e: Entry<K, V>) {
    var hv := t.hash(e.key);
    var oldFirst := IndexHash(t.oldmask, hv);
    var newFirst := IndexHash(t.mask, hv);
    || (b == oldFirst && newFirst == oldFirst)
    || (b == AltIndex(t.oldmask, e.partial, oldFirst) &&
        AltIndex(t.mask, e.partial, newFirst) == AltIndex(t.oldmask, e.partial, oldFirst))
  }

  /** The slots after items from slot `s` of bucket `b` on have been looked at, the next one moved going
      to slot `next` of the bucket above. */
  function SplitFrom<K, V>(t: Table<K, V>, slots: map<Place, Entry<K, V>>, b: Word, s: nat, next: nat)
    : map<Place, Entry<K, V>>
    decreases t.width - s
  {
    if s >= t.width then slots
    else if (b, s) in slots && GoesUp(t, b, slots[(b, s)]) then
      SplitFrom(t, (slots - {(b, s)})[(Upper(t.oldmask, b), next) := slots[(b, s)]], b, s + 1, next + 1)
    else SplitFrom(t, slots, b, s + 1, next)
  }

  function StartDoubling<K, V>(t: Table<K, V>): Table<K, V> {
    t.(mask := NextMask(t.mask), growing := true, oldmask := t.mask, done := {})
  }

  /** Split one old bucket; its lock is then let go. */
  function SplitBucket<K, V>(t: Table<K, V>, b: Word): Table<K, V> {
    t.(slots := SplitFrom(t, t.slots, b, 0, 0), done := t.done + {b})
  }

  function EndDoubling<K, V>(t: Table<K, V>): Table<K, V> {
    t.(growing := false)
  }

  /** An item of an old bucket either goes up to where its key belongs, or stays and still belongs there:
      the source's assertion always holds. */
  lemma StayOrGo<K, V>(t: Table<K, V>, b: Word, e: Entry<K, V>)
    requires IsMask(t.oldmask) && t.mask == NextMask(t.oldmask)
    requires InRange(t.oldmask, b) && AtHome(t, t.oldmask, b, e)
    ensures !GoesUp(t, b, e) ==> MayStay(t, b, e) && AtHome(t, t.mask, b, e)
    ensures GoesUp(t, b, e) ==> AtHome(t, t.mask, Upper(t.oldmask, b), e)
  {
    hide AltIndex, PartialKey, IsMask, NextMask, Upper, IndexHash;
    var hv := t.hash(e.key);
    var first := IndexHash(t.mask, hv);
    var second := AltIndex(t.mask, e.partial, first);
    IndexGrows(t.oldmask, hv);
    AltIndexGrows(t.oldmask, hv, e.partial);
    IndexInRange(t.mask, hv);
    AltInRange(t.mask, e.partial, first);
    TwoHomes(t.oldmask, first);
    TwoHomes(t.oldmask, second);
  }

  /** A bucket half split. */
  ghost predicate HalfSplit<K, V>(t: Table<K, V>, slots: map<Place, Entry<K, V>>, b: Word, s: nat, next: nat) {
    && SameItems(t, slots) && Parts(t, slots, b, s, next)
  }

  ghost predicate SameItems<K, V>(t: Table<K, V>, slots: map<Place, Entry<K, V>>) {
    Unique(slots) && Contents(slots) == Contents(t.slots) && |slots| == |t.slots|
  }

  /** The items already looked at are where they belong, the others have not moved. */
  ghost predicate Parts<K, V>(t: Table<K, V>, slots: map<Place, Entry<K, V>>, b: Word, s: nat, next: nat) {
    && next <= s <= t.width
    && (forall p :: p in slots && p.0 != b && p.0 != Upper(t.oldmask, b) ==> p in t.slots && slots[p] == t.slots[p])
    && (forall p :: p in slots && p.0 == b ==>
          && p.1 < t.width && p in t.slots && slots[p] == t.slots[p]
          && (p.1 < s ==> AtHome(t, t.mask, b, slots[p])))
    && (forall p :: p in slots && p.0 == Upper(t.oldmask, b) ==>
          p.1 < next && AtHome(t, t.mask, Upper(t.oldmask, b), slots[p]))
  }

  /** An item that goes up finds its slot free, and belongs there. */
  lemma SplitItem<K, V>(t: Table<K, V>, slots: map<Place, Entry<K, V>>, b: Word, s: nat, next: nat)
    requires Inv(t) && t.growing && InRange(t.oldmask, b) && b !in t.done
    requires HalfSplit(t, slots, b, s, next) && s < t.width
    requires (b, s) in slots && GoesUp(t, b, slots[(b, s)])
    ensures Upper(t.oldmask, b) != b && (Upper(t.oldmask, b), next) !in slots
    ensures AtHome(t, t.mask, Upper(t.oldmask, b), slots[(b, s)])
  {
    hide AltIndex, PartialKey, IsMask, NextMask, Upper, GoesUp, Contents, Unique, AtHome;
    UpperBucket(t.oldmask, b);
    assert Placed(t, (b, s));
    StayOrGo(t, b, slots[(b, s)]);
  }

  lemma PartsUp<K, V>(t: Table<K, V>, slots: map<Place, Entry<K, V>>, b: Word, s: nat, next: nat, u: Word)
    requires Parts(t, slots, b, s, next) && s < t.width && u == Upper(t.oldmask, b) && u != b
    requires (b, s) in slots && AtHome(t, t.mask, u, slots[(b, s)])
    ensures Parts(t, (slots - {(b, s)})[(u, next) := slots[(b, s)]], b, s + 1, next + 1)
  {
    hide Upper, AtHome;
    var q := (u, next);
    var slots' := (slots - {(b, s)})[q := slots[(b, s)]];
    forall p | p in slots' && p.0 == b
      ensures p.1 < t.width && p in t.slots && slots'[p] == t.slots[p]
      ensures p.1 < s + 1 ==> AtHome(t, t.mask, b, slots'[p])
    {
      assert p in slots && p != (b, s) && p == (p.0, p.1);
    }
    forall p | p in slots' && p.0 == u
      ensures p.1 < next + 1 && AtHome(t, t.mask, u, slots'[p])
    {
      assert p != q ==> p in slots;
    }
  }

  lemma SplitUp<K, V>(t: Table<K, V>, slots: map<Place, Entry<K, V>>, b: Word, s: nat, next: nat)
    requires Inv(t) && t.growing && InRange(t.oldmask, b) && b !in t.done
    requires HalfSplit(t, slots, b, s, next) && s < t.width
    requires (b, s) in slots && GoesUp(t, b, slots[(b, s)])
    ensures (Upper(t.oldmask, b), next) !in slots
    ensures HalfSplit(t, (slots - {(b, s)})[(Upper(t.oldmask, b), next) := slots[(b, s)]], b, s + 1, next + 1)
  {
    hide Upper, Inv, GoesUp, Parts, Contents, Unique, AtHome, IndexHash;
    SplitItem(t, slots, b, s, next);
    PartsUp(t, slots, b, s, next, Upper(t.oldmask, b));
    UniqueMove(slots, (b, s), (Upper(t.oldmask, b), next));
  }

  lemma SplitStay<K, V>(t: Table<K, V>, slots: map<Place, Entry<K, V>>, b: Word, s: nat, next: nat)
    requires Inv(t) && t.growing && InRange(t.oldmask, b) && b !in t.done
    requires HalfSplit(t, slots, b, s, next) && s < t.width
    requires (b, s) in slots ==> !GoesUp(t, b, slots[(b, s)])
    ensures HalfSplit(t, slots, b, s + 1, next)
    ensures (b, s) in slots ==> MayStay(t, b, slots[(b, s)])
  {
    hide IndexHash, AltIndex, PartialKey, IsMask, NextMask, Upper, GoesUp, MayStay, Contents, Unique, AtHome;
    UpperBucket(t.oldmask, b);
    if (b, s) in slots {
      assert Placed(t, (b, s));
      StayOrGo(t, b, slots[(b, s)]);
    }
    forall p | p in slots && p.0 == b && p.1 < s + 1
      ensures AtHome(t, t.mask, b, slots[p])
    {
      assert p == (p.0, p.1);
    }
  }

  lemma {:induction false} SplitFromKeeps<K, V>(t: Table<K, V>, slots: map<Place, Entry<K, V>>, b: Word, s: nat,
                                                next: nat)
    returns (last: nat)
    requires Inv(t) && t.growing && InRange(t.oldmask, b) && b !in t.done
    requires HalfSplit(t, slots, b, s, next)
    ensures HalfSplit(t, SplitFrom(t, slots, b, s, next), b, t.width, last)
    decreases t.width - s
  {
    hide IndexHash, AltIndex, PartialKey, IsMask, NextMask, Upper, GoesUp, Contents, Unique, AtHome, HalfSplit, Inv;
    if s >= t.width {
      WidthReached(t, slots, b, s, next);
      last := next;
    } else if (b, s) in slots && GoesUp(t, b, slots[(b, s)]) {
      SplitUp(t, slots, b, s, next);
      var slots' := (slots - {(b, s)})[(Upper(t.oldmask, b), next) := slots[(b, s)]];
      last := SplitFromKeeps(t, slots', b, s + 1, next + 1);
      assert SplitFrom(t, slots, b, s, next) == SplitFrom(t, slots', b, s + 1, next + 1);
    } else {
      SplitStay(t, slots, b, s, next);
      last := SplitFromKeeps(t, slots, b, s + 1, next);
      assert SplitFrom(t, slots, b, s, next) == SplitFrom(t, slots, b, s + 1, next);
    }
  }

  lemma WidthReached<K, V>(t: Table<K, V>, slots: map<Place, Entry<K, V>>, b: Word, s: nat, next: nat)
    requires HalfSplit(t, slots, b, s, next) && s >= t.width
    ensures HalfSplit(t, slots, b, t.width, next)
  {
  }

  lemma StartHalf<K, V>(t: Table<K, V>, b: Word)
    requires Inv(t) && t.growing && InRange(t.oldmask, b) && b !in t.done
    ensures HalfSplit(t, t.slots, b, 0, 0)
  {
    hide AltIndex, PartialKey, IsMask, NextMask, Upper, Contents, AtHome;
    UpperBucket(t.oldmask, b);
    forall p | p in t.slots
      ensures p.1 < t.width && p.0 != Upper(t.oldmask, b)
    {
      assert Placed(t, p);
    }
  }

  /** Splitting one bucket keeps the map and leaves every item where it belongs. */
  lemma SplitBucketKeeps<K, V>(t: Table<K, V>, b: Word)
    requires Inv(t) && t.growing && InRange(t.oldmask, b) && b !in t.done
    ensures Inv(SplitBucket(t, b))
    ensures Contents(SplitBucket(t, b).slots) == Contents(t.slots)
  {
    hide AltIndex, PartialKey, IsMask, NextMask, Upper, Contents, AtHome;
    StartHalf(t, b);
    var next := SplitFromKeeps(t, t.slots, b, 0, 0);
    var t' := SplitBucket(t, b);
    UpperBucket(t.oldmask, b);
    LowerBucket(t.oldmask, b);
    forall p | p in t'.slots
      ensures Placed(t', p)
    {
      AtHomeSame(t, t', t.mask, p.0, t'.slots[p]);
      AtHomeSame(t, t', t.oldmask, p.0, t'.slots[p]);
      if p.0 == b {
        assert Open(t', b);
      } else if p.0 == Upper(t.oldmask, b) {
        assert Open(t', p.0);
      } else {
        assert Placed(t, p);
        OtherBase(t, b, p.0);
      }
    }
  }

  lemma OtherBase<K, V>(t: Table<K, V>, b: Word, x: Word)
    requires IsMask(t.oldmask) && t.mask == NextMask(t.oldmask) && t.growing && InRange(t.mask, x)
    requires x != b && x != Upper(t.oldmask, b)
    ensures Open(t.(done := t.done + {b}), x) <==> Open(t, x)
  {
    hide IndexHash, Upper, IsMask, NextMask;
    TwoHomes(t.oldmask, x);
  }

  lemma StartDoublingKeeps<K, V>(t: Table<K, V>)
    requires Inv(t) && !t.growing && IsMask(NextMask(t.mask))
    ensures Inv(StartDoubling(t)) && forall b :: !Open(StartDoubling(t), b)
    ensures StartDoubling(t).mask == NextMask(t.mask) && StartDoubling(t).oldmask == t.mask
    ensures Contents(StartDoubling(t).slots) == Contents(t.slots)
  {
    hide IndexHash, AltIndex, PartialKey, IsMask, NextMask, AtHome;
    var t' := StartDoubling(t);
    forall p | p in t'.slots
      ensures Placed(t', p)
    {
      assert Placed(t, p);
      LowerBucket(t.mask, p.0);
      AtHomeSame(t, t', t.mask, p.0, t.slots[p]);
    }
  }

  lemma AtHomeSame<K, V>(t: Table<K, V>, t': Table<K, V>, mask: Word, b: Word, e: Entry<K, V>)
    requires t'.hash == t.hash
    ensures AtHome(t', mask, b, e) <==> AtHome(t, mask, b, e)
  {
  }

  lemma EndDoublingKeeps<K, V>(t: Table<K, V>)
    requires Inv(t) && t.growing
    requires forall b :: InRange(t.oldmask, b) ==> b in t.done
    ensures Inv(EndDoubling(t)) && !EndDoubling(t).growing && EndDoubling(t).mask == t.mask
    ensures Contents(EndDoubling(t).slots) == Contents(t.slots)
  {
    hide AltIndex, PartialKey, IsMask, NextMask, AtHome;
    var t' := EndDoubling(t);
    forall p | p in t'.slots
      ensures Placed(t', p)
    {
      assert Placed(t, p);
      IndexInRange(t.oldmask, p.0);
      AtHomeSame(t, t', t.mask, p.0, t.slots[p]);
    }
  }
}
