/** What the bounded version vector and the bounded time vector share: a list of clocks, newest first, at
    most `limit` of them, and a comparison that makes up for clocks the other side may have evicted. A
    version vector's clocks all have time 0. */
module VectorClocks {
  datatype Clock<K> = Clock(key: K, time: nat, count: nat)

  /** `clockLessThan`; with equal times it is the version vector's comparison of counts. */
  predicate Before<K>(a: Clock<K>, b: Clock<K>) {
    a.time < b.time || (a.time == b.time && a.count < b.count)
  }

  datatype Comparison = EQUAL | LESS_THAN | GREATER_THAN | CONFLICT

  /** The two bits of the source's enumeration. */
  function Bits(less: bool, greater: bool): Comparison {
    if less then (if greater then CONFLICT else LESS_THAN) else (if greater then GREATER_THAN else EQUAL)
  }

  ghost predicate Distinct<K>(cs: seq<Clock<K>>) {
    forall i, j :: 0 <= i < j < |cs| ==> cs[i].key != cs[j].key
  }

  /** `std::find`: the first clock with the key, or the end. */
  function IndexOf<K(==)>(cs: seq<Clock<K>>, key: K): (i: nat)
    ensures i <= |cs|
    ensures i < |cs| ==> cs[i].key == key
    ensures forall j :: 0 <= j < i ==> cs[j].key != key
  {
    if cs == [] || cs[0].key == key then 0 else
      assert forall j :: 0 < j < |cs| ==> cs[j] == cs[1..][j - 1];
      1 + IndexOf(cs[1..], key)
  }

  /** `findElem`: the clock with the candidate's key, if it is not newer than the candidate. */
  function FindElem<K(==)>(cs: seq<Clock<K>>, elem: Clock<K>): nat {
    var i := IndexOf(cs, elem.key);
    if i < |cs| && !Before(elem, cs[i]) then i else |cs|
  }

  /** `findEnd`'s loop, from candidate `next` on. */
  function FindEndFrom<K(==)>(cs: seq<Clock<K>>, candidates: seq<Clock<K>>, next: nat): (end: nat)
    ensures end <= |cs|
    decreases |candidates| - next
  {
    if next >= |candidates| then |cs|
    else if FindElem(cs, candidates[next]) < |cs| then FindElem(cs, candidates[next])
    else FindEndFrom(cs, candidates, next + 1)
  }

  /** How much of `cs` is compared: when the other side is full, only the part before the first of its
      older half's clocks that is found here. */
  function FindEnd<K(==)>(cs: seq<Clock<K>>, candidates: seq<Clock<K>>, limit: nat): (end: nat)
    ensures end <= |cs|
  {
    if |candidates| >= limit then FindEndFrom(cs, candidates, |candidates| - limit / 2) else |cs|
  }

  /** The clocks of a list by key, the first of a key counting. */
  function ByKey<K(==)>(cs: seq<Clock<K>>): map<K, Clock<K>> {
    if cs == [] then map[] else
      var m := ByKey(cs[..|cs| - 1]);
      var c := cs[|cs| - 1];
      if c.key in m then m else m[c.key := c]
  }

  /** Some clock of `a` is missing from `b` or newer than `b`'s. */
  ghost predicate Exceeds<K>(a: map<K, Clock<K>>, b: map<K, Clock<K>>) {
    exists k :: k in a && (k !in b || Before(b[k], a[k]))
  }

  /** The inner `compare`. */
  ghost function CompareCut<K>(lesser: seq<Clock<K>>, greater: seq<Clock<K>>, limit: nat): Comparison {
    var first := ByKey(lesser[..FindEnd(lesser, greater, limit)]);
    var second := ByKey(greater[..FindEnd(greater, lesser, limit)]);
    Bits(Exceeds(second, first), Exceeds(first, second))
  }

  function Flip(c: Comparison): Comparison {
    match c
    case LESS_THAN => GREATER_THAN
    case GREATER_THAN => LESS_THAN
    case _ => c
  }

  /** `result | GREATER_THAN`. */
  function OrGreater(c: Comparison): Comparison {
    match c
    case EQUAL => GREATER_THAN
    case LESS_THAN => CONFLICT
    case _ => c
  }

  /** `compare`. */
  ghost function Compare<K>(a: seq<Clock<K>>, b: seq<Clock<K>>, limit: nat): Comparison {
    if |a| > |b| then OrGreater(Flip(CompareCut(b, a, limit))) else CompareCut(a, b, limit)
  }

  // ----- the comparison and the partial order

  lemma {:induction false} ByKeyIs<K>(cs: seq<Clock<K>>)
    requires Distinct(cs)
    ensures forall i :: 0 <= i < |cs| ==> cs[i].key in ByKey(cs) && ByKey(cs)[cs[i].key] == cs[i]
    ensures forall k :: k in ByKey(cs) ==> exists i :: 0 <= i < |cs| && cs[i].key == k
  {
    if cs != [] {
      ByKeyIs(cs[..|cs| - 1]);
    }
  }

  /** Of several clocks with one key the first counts. */
  lemma {:induction false} ByKeyFirst<K>(cs: seq<Clock<K>>, key: K)
    ensures key in ByKey(cs) <==> IndexOf(cs, key) < |cs|
    ensures key in ByKey(cs) ==> ByKey(cs)[key] == cs[IndexOf(cs, key)]
  {
    if cs != [] {
      var n := |cs| - 1;
      ByKeyFirst(cs[..n], key);
      IndexOfMore(cs, key);
    }
  }

  lemma IndexOfMore<K>(cs: seq<Clock<K>>, key: K)
    requires cs != []
    ensures
      var n := |cs| - 1;
      var i := IndexOf(cs[..n], key);
      IndexOf(cs, key) == if i < n then i else if cs[n].key == key then n else |cs|
  {
    hide IndexOf;
    var n := |cs| - 1;
    IndexFirst(cs, key);
    IndexFirst(cs[..n], key);
    assert forall t :: 0 <= t < n ==> cs[..n][t] == cs[t];
  }

  /** `b` has a clock for `c`'s key that is not older. */
  ghost predicate Covers<K>(b: seq<Clock<K>>, c: Clock<K>) {
    exists j :: 0 <= j < |b| && b[j].key == c.key && !Before(b[j], c)
  }

  /** The vector-clock order: every clock here has one there that is not older. */
  ghost predicate AtMost<K>(a: seq<Clock<K>>, b: seq<Clock<K>>) {
    forall i :: 0 <= i < |a| ==> Covers(b, a[i])
  }

  lemma AtMostIsNotExceeds<K>(a: seq<Clock<K>>, b: seq<Clock<K>>)
    requires Distinct(a) && Distinct(b)
    ensures AtMost(a, b) <==> !Exceeds(ByKey(a), ByKey(b))
  {
    ByKeyIs(a);
    ByKeyIs(b);
  }

  /** Below the limit `compare` decides the order exactly. */
  lemma CompareDecides<K>(a: seq<Clock<K>>, b: seq<Clock<K>>, limit: nat)
    requires Distinct(a) && Distinct(b) && |a| < limit && |b| < limit
    ensures Compare(a, b, limit) == Bits(!AtMost(b, a), !AtMost(a, b))
  {
    assert a[..|a|] == a && b[..|b|] == b;
    AtMostIsNotExceeds(a, b);
    AtMostIsNotExceeds(b, a);
    if |a| > |b| {
      LongerExceeds(a, b);
    }
  }

  /** A longer list of distinct clocks has a key the shorter one lacks. */
  lemma LongerExceeds<K>(a: seq<Clock<K>>, b: seq<Clock<K>>)
    requires Distinct(a) && Distinct(b) && |a| > |b|
    ensures !AtMost(a, b)
  {
    if AtMost(a, b) {
      var ka, kb := set i | 0 <= i < |a| :: a[i].key, set j | 0 <= j < |b| :: b[j].key;
      KeyCount(a);
      KeyCount(b);
      assert ka <= kb;
      Subset(ka, kb);
    }
  }

  lemma {:induction false} KeyCount<K>(a: seq<Clock<K>>)
    requires Distinct(a)
    ensures |set i | 0 <= i < |a| :: a[i].key| == |a|
  {
    if a != [] {
      var n := |a| - 1;
      KeyCount(a[..n]);
      assert (set i | 0 <= i < |a| :: a[i].key) == (set i | 0 <= i < n :: a[..n][i].key) + {a[n].key};
    }
  }

  lemma Subset<T>(a: set<T>, b: set<T>)
    requires a <= b
    ensures |a| <= |b|
  {
    assert b == a + (b - a);
  }

  /** The two directions mirror each other for lists of one length at any size, and for lists of distinct keys as
      long as the shorter is below the limit; so for all that are within it. */
  lemma CompareMirrors<K>(a: seq<Clock<K>>, b: seq<Clock<K>>, limit: nat)
    requires |a| == |b| || (Distinct(a) && Distinct(b) && (|a| < limit || |b| < limit))
    ensures Compare(b, a, limit) == Flip(Compare(a, b, limit))
  {
    if |a| < |b| {
      SurplusShows(a, b, limit);
    } else if |b| < |a| {
      SurplusShows(b, a, limit);
    }
  }

  /** A longer vector's surplus is seen: all of it is compared when the shorter one is not full. */
  lemma SurplusShows<K>(a: seq<Clock<K>>, b: seq<Clock<K>>, limit: nat)
    requires Distinct(a) && Distinct(b) && |a| < |b| && |a| < limit
    ensures CompareCut(a, b, limit) in {LESS_THAN, CONFLICT}
  {
    hide ByKey;
    var p := FindEnd(a, b, limit);
    assert b[..FindEnd(b, a, limit)] == b;
    LongerExceeds(b, a[..p]);
    AtMostIsNotExceeds(b, a[..p]);
  }

  /** The answer for any two lists, over the limit or not, as long as they are and whatever order they come in: less if
      what is compared of `b` has a clock that what is compared of `a` lacks or has older, greater the other way round,
      or for being the longer list. */
  lemma CompareIs<K>(a: seq<Clock<K>>, b: seq<Clock<K>>, limit: nat)
    ensures
      var first, second := ByKey(a[..FindEnd(a, b, limit)]), ByKey(b[..FindEnd(b, a, limit)]);
      Compare(a, b, limit) == Bits(Exceeds(second, first), |a| > |b| || Exceeds(first, second))
  {
    hide ByKey, FindEnd, Exceeds;
  }

  /** The longer list has something to show in what is compared of the two: a clock the shorter list's part lacks
      or has an older clock for. */
  ghost predicate Surplus<K>(shorter: seq<Clock<K>>, longer: seq<Clock<K>>, limit: nat) {
    Exceeds(ByKey(longer[..FindEnd(longer, shorter, limit)]), ByKey(shorter[..FindEnd(shorter, longer, limit)]))
  }

  /** For any two lists, over the limit or not: the directions mirror each other exactly when the lengths are equal
      or the longer list shows a surplus. Its length alone counts as one, but only when it is asked. */
  lemma MirrorsIff<K>(a: seq<Clock<K>>, b: seq<Clock<K>>, limit: nat)
    ensures Compare(b, a, limit) == Flip(Compare(a, b, limit)) <==>
              |a| == |b| || if |a| < |b| then Surplus(a, b, limit) else Surplus(b, a, limit)
  {
    hide ByKey, FindEnd, Exceeds;
    if |a| == |b| {
      var first, second := ByKey(a[..FindEnd(a, b, limit)]), ByKey(b[..FindEnd(b, a, limit)]);
      assert Compare(a, b, limit) == Bits(Exceeds(second, first), Exceeds(first, second));
      assert Compare(b, a, limit) == Bits(Exceeds(first, second), Exceeds(second, first));
    }
  }

  /** Two lists over a limit of 2, as the constructor takes them, that do not mirror: `a` is put above `b`, and `b`
      in conflict with `a`. Each list's older clock is found in the other, and `b`'s cut there loses the rest. */
  lemma OverLimitTurns()
    ensures
      var a := [Clock(0, 0, 1), Clock(1, 0, 1)];
      var b := a + [Clock(2, 0, 1)];
      Compare(a, b, 2) == GREATER_THAN && Compare(b, a, 2) == CONFLICT
  {
    var a := [Clock(0, 0, 1), Clock(1, 0, 1)];
    var b := a + [Clock(2, 0, 1)];
    assert IndexOf(a, 2) == 2;
    IndexIs(b, 1);
    assert FindEndFrom(a, b, 2) == 2;
    assert FindEndFrom(b, a, 1) == 1;
    assert a[..2] == a && b[..1] == [b[0]] && a[..1] == [a[0]];
    assert ByKey(b[..1]) == map[0 := b[0]];
    assert ByKey(a) == map[0 := a[0], 1 := a[1]];
    assert 1 in ByKey(a) && 1 !in ByKey(b[..1]);
  }

  // ----- increment

  /** What both `increment`s do to the list, given the new clock. */
  function Renew<K(==)>(cs: seq<Clock<K>>, c: Clock<K>, limit: nat): (r: seq<Clock<K>>)
    ensures |cs| <= limit ==> |r| <= limit
  {
    var i := IndexOf(cs, c.key);
    var r := if i == |cs| then [c] + cs else [c] + cs[..i] + cs[i + 1..];
    if |r| > limit then r[..|r| - 1] else r
  }

  /** `clock{key, it->count + 1}`: the count is a 32-bit unsigned. */
  function NextVersion<K(==)>(cs: seq<Clock<K>>, key: K): Clock<K> {
    var i := IndexOf(cs, key);
    Clock(key, 0, if i == |cs| then 1 else (cs[i].count + 1) % 0x1_0000_0000)
  }

  /** The time vector's new clock: when the wall clock has not moved on, or went backwards, the stored time
      is kept and the 16-bit count goes up. */
  function NextTime<K(==)>(cs: seq<Clock<K>>, key: K, time: nat): Clock<K> {
    var i := IndexOf(cs, key);
    if i == |cs| then Clock(key, time, 0)
    else if time <= cs[i].time then Clock(key, cs[i].time, (cs[i].count + 1) % 0x1_0000)
    else Clock(key, time, 0)
  }

  /** The clock `c` supersedes what `cs` has for its key, if anything. */
  predicate Newer<K(==)>(cs: seq<Clock<K>>, c: Clock<K>) {
    var i := IndexOf(cs, c.key);
    i < |cs| ==> Before(cs[i], c)
  }

  /** A stored clock's fields fit the source's types. */
  predicate Fits<K>(cs: seq<Clock<K>>, counts: nat) {
    forall i :: 0 <= i < |cs| ==> cs[i].count < counts
  }

  /** A version vector's new clock is newer, except exactly when the 32-bit count wraps. */
  lemma VersionGoesUp<K>(cs: seq<Clock<K>>, key: K)
    requires Fits(cs, 0x1_0000_0000) && forall c :: c in cs ==> c.time == 0
    ensures Newer(cs, NextVersion(cs, key)) <==>
              IndexOf(cs, key) == |cs| || cs[IndexOf(cs, key)].count != 0xFFFF_FFFF
  {
    var i := IndexOf(cs, key);
    assert i < |cs| ==> cs[i] in cs;
  }

  /** A time vector's new clock is newer whatever time is supplied, except exactly when the time did not move
      on and the 16-bit count wraps. */
  lemma TimeGoesUp<K>(cs: seq<Clock<K>>, key: K, time: nat)
    requires Fits(cs, 0x1_0000)
    ensures Newer(cs, NextTime(cs, key, time)) <==>
              var i := IndexOf(cs, key);
              i == |cs| || time > cs[i].time || cs[i].count != 0xFFFF
  {
  }

  lemma {:induction false} IndexIs<K>(cs: seq<Clock<K>>, i: nat)
    requires Distinct(cs) && i < |cs|
    ensures IndexOf(cs, cs[i].key) == i
  {
  }

  /** The list after a renewal, position by position: the new clock is in front, the clocks before the
      key's old place move back by one, the rest stay, and only a clock pushed past the limit is lost. */
  lemma RenewPlaces<K>(cs: seq<Clock<K>>, c: Clock<K>, limit: nat)
    requires Distinct(cs) && |cs| <= limit && limit >= 1
    ensures
      var i, r := IndexOf(cs, c.key), Renew(cs, c, limit);
      && |r| == (if i < |cs| || |cs| == limit then |cs| else |cs| + 1)
      && r[0] == c
      && (forall t :: 0 <= t < i && t + 1 < |r| ==> r[t + 1] == cs[t])
      && (forall t :: i < t < |cs| ==> r[t] == cs[t])
    ensures Distinct(Renew(cs, c, limit))
  {
    hide IndexOf, Renew;
    var i, r := IndexOf(cs, c.key), Renew(cs, c, limit);
    RenewSize(cs, c, limit);
    IndexFirst(cs, c.key);
    forall t | 0 <= t < i && t + 1 < |r|
      ensures r[t + 1] == cs[t]
    {
      RenewAt(cs, c, limit, t + 1);
    }
    forall t | i < t < |cs|
      ensures r[t] == cs[t]
    {
      RenewAt(cs, c, limit, t);
    }
    forall t, u | 0 <= t < u < |r|
      ensures r[t].key != r[u].key
    {
      RenewAt(cs, c, limit, u);
      if t > 0 {
        RenewAt(cs, c, limit, t);
      }
    }
  }

  lemma RenewSize<K>(cs: seq<Clock<K>>, c: Clock<K>, limit: nat)
    requires |cs| <= limit && limit >= 1
    ensures
      var i, r := IndexOf(cs, c.key), Renew(cs, c, limit);
      |r| == (if i < |cs| || |cs| == limit then |cs| else |cs| + 1) && |r| > 0 && r[0] == c
  {
    hide IndexOf;
  }

  lemma RenewAt<K>(cs: seq<Clock<K>>, c: Clock<K>, limit: nat, t: nat)
    requires 1 <= t < |Renew(cs, c, limit)|
    ensures
      var i := IndexOf(cs, c.key);
      t <= |cs| && (i < t ==> t < |cs|) && Renew(cs, c, limit)[t] == if t <= i then cs[t - 1] else cs[t]
  {
    hide IndexOf;
  }

  lemma IndexFirst<K>(cs: seq<Clock<K>>, key: K)
    ensures IndexOf(cs, key) <= |cs|
    ensures forall t :: 0 <= t < |cs| && t < IndexOf(cs, key) ==> cs[t].key != key
    ensures IndexOf(cs, key) < |cs| ==> cs[IndexOf(cs, key)].key == key
  {
  }

  /** `findEnd` stops where the other side's clock number `j` or a later one is found unchanged. */
  lemma {:induction false} FoundAt<K>(a: seq<Clock<K>>, b: seq<Clock<K>>, from: nat, j: nat, x: nat)
    requires Distinct(a) && from <= j < |b| && x < |a| && a[x] == b[j]
    requires forall t :: from <= t < j ==> FindElem(a, b[t]) == |a|
    ensures FindEndFrom(a, b, from) == x
    decreases j - from
  {
    IndexIs(a, x);
    if from < j {
      FoundAt(a, b, from + 1, j, x);
    }
  }

  lemma FindEndIs<K>(a: seq<Clock<K>>, b: seq<Clock<K>>, limit: nat)
    requires |b| == limit
    ensures FindEnd(a, b, limit) == FindEndFrom(a, b, limit - limit / 2)
  {
  }

  /** How `findEnd` cuts a vector against its renewal. */
  lemma RenewCutsOld<K>(cs: seq<Clock<K>>, c: Clock<K>, limit: nat)
    requires Distinct(cs) && |cs| <= limit && limit >= 2
    ensures
      var i, j, r := IndexOf(cs, c.key), limit - limit / 2, Renew(cs, c, limit);
      FindEnd(cs, r, limit) == (if |r| < limit then |cs| else if j <= i then j - 1 else j)
  {
    hide Renew, FindEndFrom, FindElem, IndexOf;
    var i, j, r := IndexOf(cs, c.key), limit - limit / 2, Renew(cs, c, limit);
    RenewPlaces(cs, c, limit);
    if |r| == limit {
      FindEndIs(cs, r, limit);
      FoundAt(cs, r, j, j, if j <= i then j - 1 else j);
    }
  }

  /** How `findEnd` cuts the renewal against the vector it comes from. */
  lemma RenewCutsNew<K>(cs: seq<Clock<K>>, c: Clock<K>, limit: nat)
    requires Distinct(cs) && |cs| <= limit && limit >= 2 && Newer(cs, c)
    ensures
      var i, j, r := IndexOf(cs, c.key), limit - limit / 2, Renew(cs, c, limit);
      FindEnd(r, cs, limit) == (if |cs| < limit then |r| else if j <= i then j + 1 else j)
  {
    hide Renew, FindEndFrom, FindElem, IndexOf;
    var i, j, r := IndexOf(cs, c.key), limit - limit / 2, Renew(cs, c, limit);
    RenewPlaces(cs, c, limit);
    if |cs| == limit {
      FindEndIs(r, cs, limit);
      if j > i {
        FoundAt(r, cs, j, j, j);
      } else if j < i && j + 1 < limit {
        FoundAt(r, cs, j, j, j + 1);
      } else {
        if j == i {
          OldIsNotFound(cs, c, limit);
        } else {
          NotInRenewed(cs, c, limit);
        }
        if j + 1 < limit {
          FoundAt(r, cs, j, j + 1, j + 1);
        } else {
          EndsAt(r, cs, j);
        }
      }
    }
  }

  lemma EndsAt<K>(a: seq<Clock<K>>, b: seq<Clock<K>>, j: nat)
    requires j == |b| - 1 && FindElem(a, b[j]) == |a|
    ensures FindEndFrom(a, b, j) == |a|
  {
  }

  /** The replaced clock is not found in the renewal: what is there now is newer. */
  lemma OldIsNotFound<K>(cs: seq<Clock<K>>, c: Clock<K>, limit: nat)
    requires Distinct(cs) && |cs| <= limit && limit >= 2 && Newer(cs, c)
    requires IndexOf(cs, c.key) < |cs|
    ensures FindElem(Renew(cs, c, limit), cs[IndexOf(cs, c.key)]) == |Renew(cs, c, limit)|
  {
    RenewPlaces(cs, c, limit);
    IndexIs(Renew(cs, c, limit), 0);
  }

  /** The evicted clock is gone. */
  lemma NotInRenewed<K>(cs: seq<Clock<K>>, c: Clock<K>, limit: nat)
    requires Distinct(cs) && |cs| == limit >= 1 && IndexOf(cs, c.key) == |cs|
    ensures FindElem(Renew(cs, c, limit), cs[limit - 1]) == limit
  {
    RenewPlaces(cs, c, limit);
    var r := Renew(cs, c, limit);
    forall k | 0 <= k < limit ensures r[k].key != cs[limit - 1].key {
      assert r[k] == if k == 0 then c else cs[k - 1];
    }
  }

  /** Every clock compared on the old side has its place among the ones compared on the new side. */
  lemma OldIsCovered<K>(cs: seq<Clock<K>>, c: Clock<K>, limit: nat, t: nat)
    requires Distinct(cs) && |cs| <= limit && limit >= 2 && Newer(cs, c)
    requires t < FindEnd(cs, Renew(cs, c, limit), limit)
    ensures
      var r := Renew(cs, c, limit);
      Covers(r[..FindEnd(r, cs, limit)], cs[t])
  {
    hide FindEnd;
    var i, r := IndexOf(cs, c.key), Renew(cs, c, limit);
    RenewPlaces(cs, c, limit);
    RenewCutsOld(cs, c, limit);
    RenewCutsNew(cs, c, limit);
    var u := if t < i then t + 1 else if t == i then 0 else t;
    assert u < FindEnd(r, cs, limit);
    assert r[..FindEnd(r, cs, limit)][u].key == cs[t].key;
  }

  /** The new clock is compared, and what the old side has for its key is older. */
  lemma NewIsSeen<K>(cs: seq<Clock<K>>, c: Clock<K>, limit: nat)
    requires Distinct(cs) && |cs| <= limit && limit >= 2 && Newer(cs, c)
    ensures
      var r := Renew(cs, c, limit);
      && FindEnd(r, cs, limit) > 0 && r[0] == c
      && forall t :: 0 <= t < |cs| && cs[t].key == c.key ==> Before(cs[t], c)
  {
    RenewPlaces(cs, c, limit);
    RenewCutsNew(cs, c, limit);
  }

  /** A single increment is seen in both directions, although the oldest clock may have been evicted and the
      comparison cuts both sides. */
  lemma IncrementIsSeen<K>(cs: seq<Clock<K>>, c: Clock<K>, limit: nat)
    requires Distinct(cs) && |cs| <= limit && limit >= 2 && Newer(cs, c)
    ensures Compare(cs, Renew(cs, c, limit), limit) == LESS_THAN
    ensures Compare(Renew(cs, c, limit), cs, limit) == GREATER_THAN
  {
    hide FindEnd, Renew, ByKey, Newer;
    var r := Renew(cs, c, limit);
    var p, q := FindEnd(cs, r, limit), FindEnd(r, cs, limit);
    assert |cs| <= |r| && Distinct(r) by { RenewPlaces(cs, c, limit); }
    NewIsSeen(cs, c, limit);
    ByKeyIs(cs[..p]);
    ByKeyIs(r[..q]);
    var first, second := ByKey(cs[..p]), ByKey(r[..q]);
    assert Exceeds(second, first) by {
      assert r[..q][0] == c;
    }
    forall k | k in first ensures k in second && !Before(second[k], first[k]) {
      var t :| 0 <= t < p && cs[..p][t].key == k;
      OldIsCovered(cs, c, limit, t);
    }
  }

  // ----- what an increment looks like, in every case

  /** How `findEnd` cuts the renewal when the new clock is not newer: the clock it replaces is then found in
      front. */
  lemma StaleCutsNew<K>(cs: seq<Clock<K>>, c: Clock<K>, limit: nat)
    requires Distinct(cs) && |cs| <= limit && limit >= 2 && !Newer(cs, c)
    ensures
      var i, j, r := IndexOf(cs, c.key), limit - limit / 2, Renew(cs, c, limit);
      FindEnd(r, cs, limit) == if |cs| < limit then |r| else if j < i then j + 1 else if j == i then 0 else j
  {
    hide Renew, FindEndFrom, FindElem, IndexOf;
    var i, j, r := IndexOf(cs, c.key), limit - limit / 2, Renew(cs, c, limit);
    RenewPlaces(cs, c, limit);
    if |cs| == limit {
      FindEndIs(r, cs, limit);
      if j == i {
        StaleIsFound(cs, c, limit);
        FoundFirst(r, cs, j);
      } else {
        FoundAt(r, cs, j, j, if j < i then j + 1 else j);
      }
    }
  }

  lemma StaleIsFound<K>(cs: seq<Clock<K>>, c: Clock<K>, limit: nat)
    requires Distinct(cs) && |cs| <= limit && limit >= 2 && !Newer(cs, c)
    ensures FindElem(Renew(cs, c, limit), cs[IndexOf(cs, c.key)]) == 0
  {
    RenewPlaces(cs, c, limit);
    IndexIs(Renew(cs, c, limit), 0);
  }

  lemma FoundFirst<K>(a: seq<Clock<K>>, b: seq<Clock<K>>, j: nat)
    requires j < |b| && FindElem(a, b[j]) == 0 < |a|
    ensures FindEndFrom(a, b, j) == 0
  {
  }

  /** Where both sides are compared up to one place behind the key, only the key's own clocks can differ. */
  lemma OneKeyDiffers<K>(cs: seq<Clock<K>>, c: Clock<K>, limit: nat, m: nat)
    requires Distinct(cs) && |cs| <= limit && limit >= 1 && IndexOf(cs, c.key) < m <= |cs| && !Newer(cs, c)
    ensures |Renew(cs, c, limit)| == |cs|
    ensures !Exceeds(ByKey(Renew(cs, c, limit)[..m]), ByKey(cs[..m]))
    ensures Exceeds(ByKey(cs[..m]), ByKey(Renew(cs, c, limit)[..m])) <==> Before(c, cs[IndexOf(cs, c.key)])
  {
    hide ByKey, Renew, AtMost, Exceeds;
    RenewPlaces(cs, c, limit);
    var a, b := cs[..m], Renew(cs, c, limit)[..m];
    OldCoversNew(cs, c, limit, m);
    NewCoversOld(cs, c, limit, m);
    AtMostIsNotExceeds(b, a);
    AtMostIsNotExceeds(a, b);
  }

  lemma OldCoversNew<K>(cs: seq<Clock<K>>, c: Clock<K>, limit: nat, m: nat)
    requires Distinct(cs) && |cs| <= limit && limit >= 1 && IndexOf(cs, c.key) < m <= |cs| && !Newer(cs, c)
    requires |Renew(cs, c, limit)| == |cs|
    ensures AtMost(Renew(cs, c, limit)[..m], cs[..m])
  {
    hide Renew, IndexOf;
    var i, a, b := IndexOf(cs, c.key), cs[..m], Renew(cs, c, limit)[..m];
    RenewPlaces(cs, c, limit);
    forall t | 0 <= t < m ensures Covers(a, b[t]) {
      var u := if t == 0 then i else if t <= i then t - 1 else t;
      assert a[u].key == b[t].key;
    }
  }

  lemma NewCoversOld<K>(cs: seq<Clock<K>>, c: Clock<K>, limit: nat, m: nat)
    requires Distinct(cs) && |cs| <= limit && limit >= 1 && IndexOf(cs, c.key) < m <= |cs| && !Newer(cs, c)
    requires |Renew(cs, c, limit)| == |cs|
    ensures AtMost(cs[..m], Renew(cs, c, limit)[..m]) <==> !Before(c, cs[IndexOf(cs, c.key)])
  {
    hide Renew, IndexOf;
    var i, a, b := IndexOf(cs, c.key), cs[..m], Renew(cs, c, limit)[..m];
    RenewPlaces(cs, c, limit);
    assert a[i].key == b[0].key;
    forall t | 0 <= t < m && t != i ensures Covers(b, a[t]) {
      var u := if t < i then t + 1 else t;
      assert b[u].key == a[t].key;
    }
    assert Covers(b, a[i]) <==> !Before(c, cs[i]) by {
      assert forall u :: 0 <= u < m && b[u].key == a[i].key ==> u == 0;
    }
  }

  /** A full vector whose key lies behind the older half's first place: the cut hides the key's old clock. */
  lemma StaleHides<K>(cs: seq<Clock<K>>, c: Clock<K>, limit: nat)
    requires Distinct(cs) && |cs| == limit && limit >= 2 && !Newer(cs, c)
    requires limit - limit / 2 < IndexOf(cs, c.key)
    ensures CompareCut(cs, Renew(cs, c, limit), limit) == LESS_THAN
  {
    hide FindEnd, ByKey, Renew, IndexOf;
    var i, j, r := IndexOf(cs, c.key), limit - limit / 2, Renew(cs, c, limit);
    RenewPlaces(cs, c, limit);
    RenewCutsOld(cs, c, limit);
    StaleCutsNew(cs, c, limit);
    var a, b := cs[..j - 1], r[..j + 1];
    AtMostIsNotExceeds(a, b);
    AtMostIsNotExceeds(b, a);
    forall t | 0 <= t < |a| ensures Covers(b, a[t]) {
      assert b[t + 1] == a[t];
    }
    assert b[0] == c && !Covers(a, c) by {
      assert forall u :: 0 <= u < |a| ==> a[u].key != cs[i].key;
    }
  }

  /** The key's old clock is the first of the older half: nothing of the renewal is compared. */
  lemma StaleAtHalf<K>(cs: seq<Clock<K>>, c: Clock<K>, limit: nat)
    requires Distinct(cs) && |cs| == limit && limit >= 2 && !Newer(cs, c)
    requires limit - limit / 2 == IndexOf(cs, c.key)
    ensures CompareCut(cs, Renew(cs, c, limit), limit) == if limit == 2 then EQUAL else GREATER_THAN
  {
    hide FindEnd, Renew, IndexOf;
    var j, r := limit - limit / 2, Renew(cs, c, limit);
    RenewPlaces(cs, c, limit);
    RenewCutsOld(cs, c, limit);
    StaleCutsNew(cs, c, limit);
    ByKeyIs(cs[..j - 1]);
    assert r[..0] == [];
    if j > 1 {
      assert cs[..j - 1][0].key in ByKey(cs[..j - 1]);
    }
  }

  /** What comparing a vector with its renewal answers, from the key's place, the vector's size, and whether
      the new clock is newer or older than the one it replaces. */
  function RenewAnswer(i: nat, n: nat, limit: nat, newer: bool, older: bool): Comparison {
    var j := limit - limit / 2;
    if limit == 0 then EQUAL
    else if limit == 1 && i == 1 then CONFLICT
    else if newer || (n == limit && j < i < n) then LESS_THAN
    else if n == limit && i == j then (if limit == 2 then EQUAL else GREATER_THAN)
    else if older then GREATER_THAN
    else EQUAL
  }

  /** The new clock is older than the one it replaces. */
  predicate Older<K(==)>(cs: seq<Clock<K>>, c: Clock<K>) {
    var i := IndexOf(cs, c.key);
    i < |cs| && Before(c, cs[i])
  }

  /** The answer in every case, a count that wraps included. */
  lemma IncrementAnswer<K>(cs: seq<Clock<K>>, c: Clock<K>, limit: nat)
    requires Distinct(cs) && |cs| <= limit
    ensures
      var answer := RenewAnswer(IndexOf(cs, c.key), |cs|, limit, Newer(cs, c), Older(cs, c));
      && Compare(cs, Renew(cs, c, limit), limit) == answer
      && Compare(Renew(cs, c, limit), cs, limit) == Flip(answer)
  {
    hide FindEnd, ByKey, IndexOf, CompareCut, Exceeds;
    var i, j, n, r := IndexOf(cs, c.key), limit - limit / 2, |cs|, Renew(cs, c, limit);
    if limit == 0 {
      assert cs == [] && r == [];
      EmptyIsEqual<K>(limit);
    } else if limit == 1 {
      RenewPlaces(cs, c, limit);
      assert r == [c];
      SingleAnswer(cs, c);
    } else {
      RenewPlaces(cs, c, limit);
      if Newer(cs, c) {
        IncrementIsSeen(cs, c, limit);
      } else if n == limit && j < i {
        StaleHides(cs, c, limit);
      } else if n == limit && j == i {
        StaleAtHalf(cs, c, limit);
      } else {
        StaleElsewhere(cs, c, limit);
      }
    }
    CompareMirrors(cs, r, limit);
  }

  lemma StaleElsewhere<K>(cs: seq<Clock<K>>, c: Clock<K>, limit: nat)
    requires Distinct(cs) && |cs| <= limit && limit >= 2 && !Newer(cs, c)
    requires |cs| == limit ==> IndexOf(cs, c.key) < limit - limit / 2
    ensures CompareCut(cs, Renew(cs, c, limit), limit) == if Older(cs, c) then GREATER_THAN else EQUAL
  {
    hide FindEnd, ByKey, Renew, IndexOf;
    RenewPlaces(cs, c, limit);
    RenewCutsOld(cs, c, limit);
    StaleCutsNew(cs, c, limit);
    OneKeyDiffers(cs, c, limit, FindEnd(cs, Renew(cs, c, limit), limit));
  }

  lemma EmptyIsEqual<K>(limit: nat)
    ensures Compare<K>([], [], limit) == EQUAL
  {
  }

  /** With room for one clock nothing is ever cut. */
  lemma SingleAnswer<K>(cs: seq<Clock<K>>, c: Clock<K>)
    requires |cs| <= 1
    ensures Compare(cs, [c], 1) == RenewAnswer(IndexOf(cs, c.key), |cs|, 1, Newer(cs, c), Older(cs, c))
  {
    var r := [c];
    assert cs[..|cs|] == cs && r[..1] == r;
    ByKeyIs(cs);
    ByKeyIs(r);
    assert r[0].key in ByKey(r);
    if cs != [] {
      assert cs[0].key in ByKey(cs);
    }
  }

  /** So an increment is seen exactly when its clock is newer and there is room for two clocks, or for one and
      no other key is stored; or, although it is not newer, when the vector is full and the key was behind the
      first place of its older half. */
  lemma IncrementSeenIff<K>(cs: seq<Clock<K>>, c: Clock<K>, limit: nat)
    requires Distinct(cs) && |cs| <= limit
    ensures Compare(cs, Renew(cs, c, limit), limit) == LESS_THAN <==>
              || (Newer(cs, c) && (limit >= 2 || (limit == 1 && IndexOf(cs, c.key) == 0)))
              || (|cs| == limit && limit - limit / 2 < IndexOf(cs, c.key) < |cs|)
  {
    hide Compare, Renew, Newer, Older;
    IncrementAnswer(cs, c, limit);
    OnlyPlaces(cs, c);
  }

  lemma OnlyPlaces<K>(cs: seq<Clock<K>>, c: Clock<K>)
    ensures IndexOf(cs, c.key) <= |cs|
    ensures IndexOf(cs, c.key) == |cs| ==> Newer(cs, c)
  {
  }

  /** A wrapped count can make the increment look like a step back. */
  lemma WrapGoesBack(limit: nat)
    requires limit >= 2
    ensures
      var v := [Clock(0, 0, 0xFFFF_FFFF)];
      Compare(v, Renew(v, NextVersion(v, 0), limit), limit) == GREATER_THAN
  {
    var v := [Clock(0, 0, 0xFFFF_FFFF)];
    assert IndexOf(v, 0) == 0;
    hide Compare, Renew;
    IncrementAnswer(v, NextVersion(v, 0), limit);
  }

  /** And it can go unnoticed: in a full vector whose last clock wraps, from four clocks on. */
  lemma WrapLooksNewer<K>(cs: seq<Clock<K>>, limit: nat)
    requires Distinct(cs) && |cs| == limit >= 4 && cs[limit - 1].count == 0xFFFF_FFFF
    ensures
      var key := cs[limit - 1].key;
      && NextVersion(cs, key).count == 0
      && Compare(cs, Renew(cs, NextVersion(cs, key), limit), limit) == LESS_THAN
  {
    hide Compare, Renew;
    var key := cs[limit - 1].key;
    IndexIs(cs, limit - 1);
    IncrementAnswer(cs, NextVersion(cs, key), limit);
  }
}
