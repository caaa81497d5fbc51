/** `merge` of two clock lists: the other side's clocks are worked in one by one near the front, the two
    sides are interlaced, and the oldest clocks past the limit are dropped. A run that would insert past the
    end of the list is `None`. */
module VectorMerge {
  import opened Options
  import opened VectorClocks

  function Erase<T>(s: seq<T>, i: nat): (r: seq<T>)
    requires i < |s|
    ensures |r| == |s| - 1
  {
    s[..i] + s[i + 1..]
  }

  function Insert<T>(s: seq<T>, i: nat, x: T): (r: seq<T>)
    requires i <= |s|
    ensures |r| == |s| + 1
  {
    s[..i] + [x] + s[i..]
  }

  function Min(a: nat, b: nat): nat { if a <= b then a else b }

  /** The first `n` of each, alternating, ours first. */
  function Weave<T>(ours: seq<T>, theirs: seq<T>, n: nat): (r: seq<T>)
    requires n <= |ours| && n <= |theirs|
    ensures |r| == 2 * n
  {
    if n == 0 then [] else Weave(ours, theirs, n - 1) + [ours[n - 1], theirs[n - 1]]
  }

  /** As many of each as both have, alternating; then what is left. */
  function Interleaved<T>(ours: seq<T>, theirs: seq<T>): (r: seq<T>)
    ensures |r| == |ours| + |theirs|
  {
    var n := Min(|ours|, |theirs|);
    Weave(ours, theirs, n) + theirs[n..] + ours[n..]
  }

  /** `reorient(additions, total)`. */
  function Reorient<T>(s: seq<T>, additions: nat, total: nat): (r: seq<T>)
    requires additions <= total <= |s|
    ensures |r| == |s|
  {
    Interleaved(s[additions..total], s[..additions]) + s[total..]
  }

  /** The loop's variables. */
  datatype Merging<K> = Merging(clocks: seq<Clock<K>>, prev: nat, noMatch: bool)

  /** One turn of the loop for the other side's clock `c`, which our side has at `at`, if at all, and older or
      not. */
  function MergeAt<K>(m: Merging<K>, c: Clock<K>, at: nat, older: bool): (r: Option<Merging<K>>)
    requires m.prev <= |m.clocks| && at <= |m.clocks|
    ensures r.Some? ==> r.value.prev <= |r.value.clocks|
    ensures r.Some? && r.value.noMatch ==> m.noMatch && r.value.prev == m.prev + 1
  {
    if at == |m.clocks| then
      Some(Merging(Insert(m.clocks, m.prev, c), m.prev + 1, m.noMatch))
    else if older then
      var rest := Erase(m.clocks, at);
      if m.prev > |rest| then None
      else Some(Merging(Insert(rest, m.prev, c), m.prev + 1, m.noMatch))
    else if m.noMatch && m.prev > at then
      None
    else
      Some(Merging(if m.noMatch then Reorient(m.clocks, m.prev, at) else m.clocks,
                   if m.prev <= at then at + 1 else m.prev, false))
  }

  function MergeOne<K(==)>(m: Merging<K>, c: Clock<K>): (r: Option<Merging<K>>)
    requires m.prev <= |m.clocks|
    ensures r.Some? ==> r.value.prev <= |r.value.clocks|
    ensures r.Some? && r.value.noMatch ==> m.noMatch && r.value.prev == m.prev + 1
  {
    var at := IndexOf(m.clocks, c.key);
    MergeAt(m, c, at, at < |m.clocks| && Before(m.clocks[at], c))
  }

  /** The loop after it has seen `theirs`. */
  function MergeAll<K(==)>(ours: seq<Clock<K>>, theirs: seq<Clock<K>>): (r: Option<Merging<K>>)
    ensures r.Some? ==> r.value.prev <= |r.value.clocks|
    ensures r.Some? && r.value.noMatch ==> r.value.prev == |theirs|
  {
    if theirs == [] then Some(Merging(ours, 0, true)) else
      var n := |theirs| - 1;
      match MergeAll(ours, theirs[..n])
      case None => None
      case Some(m) => MergeOne(m, theirs[n])
  }

  /** The whole merge before the oldest clocks are dropped. */
  function MergeWhole<K(==)>(ours: seq<Clock<K>>, theirs: seq<Clock<K>>): Option<seq<Clock<K>>> {
    match MergeAll(ours, theirs)
    case None => None
    case Some(m) => Some(if m.noMatch then Reorient(m.clocks, |theirs|, |m.clocks|) else m.clocks)
  }

  function Merge<K(==)>(ours: seq<Clock<K>>, theirs: seq<Clock<K>>, limit: nat): Option<seq<Clock<K>>> {
    match MergeWhole(ours, theirs)
    case None => None
    case Some(w) => Some(if |w| > limit then w[..limit] else w)
  }

  // ----- rearranging a list

  lemma {:induction false} WeaveAt<T>(ours: seq<T>, theirs: seq<T>, n: nat, i: nat)
    requires i < n <= |ours| && n <= |theirs|
    ensures Weave(ours, theirs, n)[2 * i] == ours[i] && Weave(ours, theirs, n)[2 * i + 1] == theirs[i]
  {
    if i < n - 1 {
      WeaveAt(ours, theirs, n - 1, i);
    }
  }

  lemma {:induction false} WeaveHolds<T>(ours: seq<T>, theirs: seq<T>, n: nat, x: T)
    requires n <= |ours| && n <= |theirs|
    ensures x in Weave(ours, theirs, n) <==> x in ours[..n] || x in theirs[..n]
  {
    if n > 0 {
      WeaveHolds(ours, theirs, n - 1, x);
      assert ours[..n] == ours[..n - 1] + [ours[n - 1]];
      assert theirs[..n] == theirs[..n - 1] + [theirs[n - 1]];
    }
  }

  lemma InParts<T>(s: seq<T>, n: nat, x: T)
    requires n <= |s|
    ensures x in s <==> x in s[..n] || x in s[n..]
  {
    assert s == s[..n] + s[n..];
  }

  lemma ReorientHolds<T>(s: seq<T>, additions: nat, total: nat, x: T)
    requires additions <= total <= |s|
    ensures x in Reorient(s, additions, total) <==> x in s
  {
    var a, b := s[..additions], s[additions..total];
    hide Weave;
    var n := Min(|a|, |b|);
    WeaveHolds(b, a, n, x);
    InParts(a, n, x);
    InParts(b, n, x);
    assert s == a + b + s[total..];
    assert Reorient(s, additions, total) == Weave(b, a, n) + a[n..] + b[n..] + s[total..];
  }

  /** A list as long as a list of distinct clocks, with the same clocks, is one too. */
  lemma SameClocksDistinct<K(!new)>(a: seq<Clock<K>>, b: seq<Clock<K>>)
    requires Distinct(a) && |a| == |b| && forall c :: c in a <==> c in b
    ensures Distinct(b)
  {
    var ka, kb := set i | 0 <= i < |a| :: a[i].key, set i | 0 <= i < |b| :: b[i].key;
    KeyCount(a);
    forall i | 0 <= i < |a| ensures a[i].key in kb {
      assert a[i] in b;
    }
    forall i, j | 0 <= i < j < |b| ensures b[i].key != b[j].key {
      if b[i].key == b[j].key {
        var short := Erase(b, j);
        var ks := set t | 0 <= t < |short| :: short[t].key;
        forall k | k in ka ensures k in ks {
          var t :| 0 <= t < |b| && b[t].key == k;
          assert short[if t < j then t else if t == j then i else t - 1].key == k;
        }
        Subset(ka, ks);
        KeysAtMost(short);
      }
    }
  }

  lemma {:induction false} KeysAtMost<K>(a: seq<Clock<K>>)
    ensures |set i | 0 <= i < |a| :: a[i].key| <= |a|
  {
    if a != [] {
      var n := |a| - 1;
      KeysAtMost(a[..n]);
      assert (set i | 0 <= i < |a| :: a[i].key) == (set i | 0 <= i < n :: a[..n][i].key) + {a[n].key};
    }
  }

  lemma ReorientKeeps<K(!new)>(s: seq<Clock<K>>, additions: nat, total: nat)
    requires additions <= total <= |s| && Distinct(s)
    ensures Distinct(Reorient(s, additions, total))
    ensures forall c :: c in Reorient(s, additions, total) <==> c in s
  {
    hide Reorient;
    forall c ensures c in Reorient(s, additions, total) <==> c in s {
      ReorientHolds(s, additions, total, c);
    }
    SameClocksDistinct(s, Reorient(s, additions, total));
  }

  lemma EraseKeeps<K(!new)>(s: seq<Clock<K>>, i: nat)
    requires i < |s| && Distinct(s)
    ensures Distinct(Erase(s, i))
    ensures forall c :: c in Erase(s, i) <==> c in s && c != s[i]
    ensures forall c :: c in Erase(s, i) ==> c.key != s[i].key
  {
    var r := Erase(s, i);
    assert forall j :: 0 <= j < |r| ==> r[j] == s[if j < i then j else j + 1];
    forall c | c in s && c != s[i] ensures c in r {
      var j :| 0 <= j < |s| && s[j] == c;
      assert r[if j < i then j else j - 1] == c;
    }
  }

  lemma InsertKeeps<K(!new)>(s: seq<Clock<K>>, i: nat, x: Clock<K>)
    requires i <= |s| && Distinct(s) && forall c :: c in s ==> c.key != x.key
    ensures Distinct(Insert(s, i, x))
    ensures forall c :: c in Insert(s, i, x) <==> c in s || c == x
  {
    var r := Insert(s, i, x);
    assert forall j :: 0 <= j < |r| ==> r[j] == if j < i then s[j] else if j == i then x else s[j - 1];
    forall c | c in s ensures c in r {
      var j :| 0 <= j < |s| && s[j] == c;
      assert r[if j < i then j else j + 1] == c;
    }
    assert r[i] == x;
  }

  // ----- a merge is the pointwise maximum

  /** `c` is one of the clocks of `a` and `b` that no clock of theirs with its key is newer than. */
  ghost predicate Newest<K(!new)>(c: Clock<K>, a: seq<Clock<K>>, b: seq<Clock<K>>) {
    && (c in a || c in b)
    && forall d: Clock<K> :: d.key == c.key && (d in a || d in b) ==> !Before(c, d)
  }

  /** `r` is the pointwise maximum of `a` and `b`. */
  ghost predicate Maximum<K(!new)>(r: seq<Clock<K>>, a: seq<Clock<K>>, b: seq<Clock<K>>) {
    Distinct(r) && forall c :: c in r <==> Newest(c, a, b)
  }

  /** What the loop keeps: the list is the maximum of ours and what was seen of theirs, and until a clock of
      ours is matched, theirs are all in front. */
  ghost predicate Inv<K(!new)>(m: Merging<K>, ours: seq<Clock<K>>, seen: seq<Clock<K>>) {
    && m.prev <= |m.clocks|
    && Maximum(m.clocks, ours, seen)
    && (m.noMatch ==> m.prev == |seen| && m.clocks[..m.prev] == seen)
  }

  /** Of two distinct lists, ours has the say on a key theirs lacks. */
  lemma OnlyOurs<K(!new)>(ours: seq<Clock<K>>, seen: seq<Clock<K>>, d: Clock<K>)
    requires Distinct(ours) && (forall c :: c in seen ==> c.key != d.key) && d in ours
    ensures Newest(d, ours, seen)
  {
    forall e: Clock<K> | e.key == d.key && (e in ours || e in seen) ensures !Before(d, e) {
      var i :| 0 <= i < |ours| && ours[i] == d;
      var j :| 0 <= j < |ours| && ours[j] == e;
      assert i == j;
    }
  }

  /** How one more clock of theirs changes who is newest. */
  lemma NewestStep<K(!new)>(ours: seq<Clock<K>>, seen: seq<Clock<K>>, c: Clock<K>, e: Clock<K>)
    requires Distinct(ours) && forall d :: d in seen ==> d.key != c.key
    ensures e.key != c.key ==> (Newest(e, ours, seen + [c]) <==> Newest(e, ours, seen))
    ensures e.key == c.key && e in ours ==>
              (Newest(e, ours, seen + [c]) <==> !Before(e, c)) && (Newest(c, ours, seen + [c]) <==> !Before(c, e))
    ensures e.key == c.key && e !in ours && e != c ==> !Newest(e, ours, seen + [c])
    ensures (forall d :: d in ours ==> d.key != c.key) ==> Newest(c, ours, seen + [c])
  {
    var more := seen + [c];
    assert forall d :: d in more <==> d in seen || d == c;
    if e.key == c.key && e in ours {
      OnlyOurs(ours, seen, e);
      forall d: Clock<K> | d.key == c.key && (d in ours || d in more) ensures d == e || d == c {
        if d in ours {
          var i :| 0 <= i < |ours| && ours[i] == d;
          var j :| 0 <= j < |ours| && ours[j] == e;
          assert i == j;
        }
      }
    }
  }

  /** The clock found for a key theirs has not shown yet is ours. */
  lemma FoundIsOurs<K(!new)>(m: Merging<K>, ours: seq<Clock<K>>, seen: seq<Clock<K>>, c: Clock<K>)
    requires Inv(m, ours, seen) && Distinct(ours) && forall d :: d in seen ==> d.key != c.key
    ensures
      var at, i := IndexOf(m.clocks, c.key), IndexOf(ours, c.key);
      && (at < |m.clocks| <==> i < |ours|)
      && (at < |m.clocks| ==> m.clocks[at] == ours[i])
      && (at < |m.clocks| && m.noMatch ==> m.prev <= at)
  {
    hide IndexOf;
    var at, i := IndexOf(m.clocks, c.key), IndexOf(ours, c.key);
    if i < |ours| {
      OnlyOurs(ours, seen, ours[i]);
      assert ours[i] in m.clocks;
    }
    if at < |m.clocks| {
      var d := m.clocks[at];
      assert d in m.clocks && Newest(d, ours, seen);
      assert d in ours;
      assert m.noMatch ==> forall t :: 0 <= t < m.prev ==> m.clocks[t] == m.clocks[..m.prev][t] && m.clocks[t] in seen;
    }
  }

  lemma MergeOneKeeps<K(!new)>(m: Merging<K>, ours: seq<Clock<K>>, seen: seq<Clock<K>>, c: Clock<K>)
    requires Inv(m, ours, seen) && Distinct(ours) && forall d :: d in seen ==> d.key != c.key
    requires MergeOne(m, c).Some?
    ensures Inv(MergeOne(m, c).value, ours, seen + [c])
  {
    hide IndexOf, Newest, Reorient;
    var at, n := IndexOf(m.clocks, c.key), MergeOne(m, c).value;
    FoundIsOurs(m, ours, seen, c);
    if at == |m.clocks| {
      InsertKeeps(m.clocks, m.prev, c);
    } else if Before(m.clocks[at], c) {
      EraseKeeps(m.clocks, at);
      InsertKeeps(Erase(m.clocks, at), m.prev, c);
    } else if m.noMatch {
      ReorientKeeps(m.clocks, m.prev, at);
    }
    forall e ensures e in n.clocks <==> Newest(e, ours, seen + [c]) {
      NewestStep(ours, seen, c, e);
      if e.key != c.key {
        assert e in n.clocks <==> e in m.clocks;
      } else if at == |m.clocks| {
        assert e in n.clocks <==> e == c;
        assert forall d :: d in ours ==> d.key != c.key;
      } else {
        var d := m.clocks[at];
        assert e in m.clocks <==> e == d;
        NewestStep(ours, seen, c, d);
      }
    }
  }

  lemma {:induction false} MergeAllKeeps<K(!new)>(ours: seq<Clock<K>>, theirs: seq<Clock<K>>)
    requires Distinct(ours) && Distinct(theirs) && MergeAll(ours, theirs).Some?
    ensures Inv(MergeAll(ours, theirs).value, ours, theirs)
  {
    if theirs != [] {
      var n := |theirs| - 1;
      MergeAllKeeps(ours, theirs[..n]);
      MergeOneKeeps(MergeAll(ours, theirs[..n]).value, ours, theirs[..n], theirs[n]);
      assert theirs[..n] + [theirs[n]] == theirs;
    } else {
      forall c ensures c in ours <==> Newest(c, ours, theirs) {
        if c in ours { OnlyOurs(ours, theirs, c); }
      }
    }
  }

  /** Before the oldest clocks are dropped, a merge is the pointwise maximum of the two vectors. */
  lemma MergeIsMaximum<K(!new)>(ours: seq<Clock<K>>, theirs: seq<Clock<K>>)
    requires Distinct(ours) && Distinct(theirs) && MergeWhole(ours, theirs).Some?
    ensures Maximum(MergeWhole(ours, theirs).value, ours, theirs)
  {
    hide Maximum, Reorient, MergeAll;
    MergeAllKeeps(ours, theirs);
    var m := MergeAll(ours, theirs).value;
    assert Maximum(m.clocks, ours, theirs);
    if m.noMatch {
      SameMaximum(m.clocks, |theirs|, ours, theirs);
    }
  }

  lemma SameMaximum<K(!new)>(s: seq<Clock<K>>, additions: nat, ours: seq<Clock<K>>, theirs: seq<Clock<K>>)
    requires Maximum(s, ours, theirs) && additions <= |s|
    ensures Maximum(Reorient(s, additions, |s|), ours, theirs)
  {
    ReorientKeeps(s, additions, |s|);
  }

  /** A merge keeps the keys distinct and the size within the limit, and what it drops are the last of the
      pointwise maximum. */
  lemma MergeKeeps<K(!new)>(ours: seq<Clock<K>>, theirs: seq<Clock<K>>, limit: nat)
    requires Distinct(ours) && Distinct(theirs) && Merge(ours, theirs, limit).Some?
    ensures
      var r, w := Merge(ours, theirs, limit).value, MergeWhole(ours, theirs).value;
      Distinct(r) && |r| == Min(|w|, limit) && r <= w && Maximum(w, ours, theirs)
  {
    MergeIsMaximum(ours, theirs);
  }

  /** So a merge that drops nothing is the least vector that both are at most. */
  lemma MergeIsLeast<K(!new)>(ours: seq<Clock<K>>, theirs: seq<Clock<K>>, u: seq<Clock<K>>)
    requires Distinct(ours) && Distinct(theirs) && MergeWhole(ours, theirs).Some?
    ensures
      var w := MergeWhole(ours, theirs).value;
      && AtMost(ours, w) && AtMost(theirs, w)
      && (AtMost(ours, u) && AtMost(theirs, u) ==> AtMost(w, u))
  {
    hide MergeWhole;
    MergeIsMaximum(ours, theirs);
    var w := MergeWhole(ours, theirs).value;
    forall c | c in ours || c in theirs ensures Covers(w, c) {
      var d := SomeNewest(c, ours, theirs);
      assert d in w;
    }
    if AtMost(ours, u) && AtMost(theirs, u) {
      forall i | 0 <= i < |w| ensures Covers(u, w[i]) {
        assert w[i] in w && Newest(w[i], ours, theirs);
      }
    }
  }

  /** Each key of either has a newest clock. */
  lemma SomeNewest<K(!new)>(c: Clock<K>, a: seq<Clock<K>>, b: seq<Clock<K>>) returns (d: Clock<K>)
    requires Distinct(a) && Distinct(b) && (c in a || c in b)
    ensures Newest(d, a, b) && d.key == c.key && !Before(d, c)
  {
    var i, j := IndexOf(a, c.key), IndexOf(b, c.key);
    d := if i < |a| && (j == |b| || Before(b[j], a[i])) then a[i] else b[j];
    forall e | e in a && e.key == c.key ensures i < |a| && e == a[i] {
      var t :| 0 <= t < |a| && a[t] == e;
    }
    forall e | e in b && e.key == c.key ensures j < |b| && e == b[j] {
      var t :| 0 <= t < |b| && b[t] == e;
    }
  }

  /** Below the limit, `compare` finds each of two vectors less than or equal to their merge. */
  lemma MergeComparesAbove<K(!new)>(ours: seq<Clock<K>>, theirs: seq<Clock<K>>, limit: nat)
    requires Distinct(ours) && Distinct(theirs) && MergeWhole(ours, theirs).Some?
    requires |ours| < limit && |theirs| < limit && |MergeWhole(ours, theirs).value| < limit
    ensures
      var r := Merge(ours, theirs, limit).value;
      Compare(ours, r, limit) in {EQUAL, LESS_THAN} && Compare(theirs, r, limit) in {EQUAL, LESS_THAN}
  {
    hide MergeWhole, Compare;
    var r := MergeWhole(ours, theirs).value;
    MergeIsMaximum(ours, theirs);
    MergeIsLeast(ours, theirs, []);
    CompareDecides(ours, r, limit);
    CompareDecides(theirs, r, limit);
  }

  // ----- when a merge is defined

  /** A clock of theirs that replaces one of ours, and one that leaves ours as it is. */
  predicate Replaces<K(==)>(ours: seq<Clock<K>>, c: Clock<K>) {
    var i := IndexOf(ours, c.key);
    i < |ours| && Before(ours[i], c)
  }

  predicate Confirms<K(==)>(ours: seq<Clock<K>>, c: Clock<K>) {
    var i := IndexOf(ours, c.key);
    i < |ours| && !Before(ours[i], c)
  }

  /** What is left of ours behind the insert position once `theirs` was seen: a clock of theirs with a key of
      ours takes its clock out, moves past it, or, when ours is newer out of turn, moves one clock on, which
      there has to be. */
  function Remaining<K(==)>(ours: seq<Clock<K>>, theirs: seq<Clock<K>>): Option<seq<Clock<K>>> {
    if theirs == [] then Some(ours) else
      var n := |theirs| - 1;
      match Remaining(ours, theirs[..n])
      case None => None
      case Some(rest) => RemainingOne(ours, rest, theirs[n])
  }

  function RemainingOne<K(==)>(ours: seq<Clock<K>>, rest: seq<Clock<K>>, c: Clock<K>): Option<seq<Clock<K>>> {
    Take(rest, IndexOf(rest, c.key), Replaces(ours, c), Confirms(ours, c))
  }

  /** The clock at `at`, if it is there, is taken out or passed. */
  function Take<T>(rest: seq<T>, at: nat, newer: bool, confirms: bool): Option<seq<T>> {
    if newer then
      if at < |rest| then Some(Erase(rest, at)) else if rest == [] then None else Some(rest[1..])
    else
      Some(if confirms && at < |rest| then rest[at + 1..] else rest)
  }

  /** A merge stays inside the list exactly when the clocks of ours behind the insert position do not run
      out. */
  lemma {:induction false} DefinedIff<K(!new)>(ours: seq<Clock<K>>, theirs: seq<Clock<K>>)
    requires Distinct(ours) && Distinct(theirs)
    ensures MergeAll(ours, theirs).Some? <==> Remaining(ours, theirs).Some?
    ensures MergeAll(ours, theirs).Some? ==>
              MergeAll(ours, theirs).value.clocks[MergeAll(ours, theirs).value.prev..] == Remaining(ours, theirs).value
  {
    if theirs != [] {
      var n := |theirs| - 1;
      DefinedIff(ours, theirs[..n]);
      if MergeAll(ours, theirs[..n]).Some? {
        MergeAllKeeps(ours, theirs[..n]);
        var m := MergeAll(ours, theirs[..n]).value;
        RestStep(m, ours, theirs[..n], theirs[n]);
      }
    }
  }

  /** What the edits do to the list from the insert position on. */
  lemma InsertTail<T>(s: seq<T>, p: nat, x: T)
    requires p <= |s|
    ensures Insert(s, p, x)[p + 1..] == s[p..]
  {
  }

  lemma EraseTail<T>(s: seq<T>, at: nat, p: nat)
    requires at < |s| && p < |s|
    ensures Erase(s, at)[p..] == if p <= at then Erase(s[p..], at - p) else s[p..][1..]
  {
  }

  lemma ReorientTail<T>(s: seq<T>, additions: nat, total: nat, p: nat)
    requires additions <= total <= p <= |s|
    ensures Reorient(s, additions, total)[p..] == s[p..]
  {
    hide Interleaved;
  }

  lemma RestStep<K(!new)>(m: Merging<K>, ours: seq<Clock<K>>, seen: seq<Clock<K>>, c: Clock<K>)
    requires Inv(m, ours, seen) && Distinct(ours) && forall d :: d in seen ==> d.key != c.key
    ensures
      var rest := RemainingOne(ours, m.clocks[m.prev..], c);
      && (MergeOne(m, c).Some? <==> rest.Some?)
      && (rest.Some? ==> MergeOne(m, c).value.clocks[MergeOne(m, c).value.prev..] == rest.value)
  {
    hide IndexOf, MergeAt, Take, Before;
    FoundIsOurs(m, ours, seen, c);
    TailIndex(m.clocks, m.prev, c.key);
    var at := IndexOf(m.clocks, c.key);
    RestAt(m, c, at, at < |m.clocks| && Before(m.clocks[at], c));
  }

  lemma RestAt<K>(m: Merging<K>, c: Clock<K>, at: nat, older: bool)
    requires m.prev <= |m.clocks| && at <= |m.clocks| && (older ==> at < |m.clocks|)
    requires at < |m.clocks| && m.noMatch ==> m.prev <= at
    ensures
      var t := if m.prev <= at then at - m.prev else |m.clocks| - m.prev;
      var r, rest := MergeAt(m, c, at, older), Take(m.clocks[m.prev..], t, older, at < |m.clocks| && !older);
      && (r.Some? <==> rest.Some?)
      && (r.Some? ==> r.value.clocks[r.value.prev..] == rest.value)
  {
    hide Insert, Erase, Reorient;
    if at == |m.clocks| {
      InsertTail(m.clocks, m.prev, c);
    } else if older {
      if m.prev < |m.clocks| {
        EraseTail(m.clocks, at, m.prev);
        InsertTail(Erase(m.clocks, at), m.prev, c);
      }
    } else if m.noMatch {
      ReorientTail(m.clocks, m.prev, at, at + 1);
    }
  }

  /** Where a key is found behind position `p`. */
  lemma TailIndex<K>(cs: seq<Clock<K>>, p: nat, key: K)
    requires p <= |cs| && Distinct(cs)
    ensures
      var at := IndexOf(cs, key);
      IndexOf(cs[p..], key) == if p <= at then at - p else |cs| - p
  {
  }

  /** No clock of theirs confirms one of ours and is followed by a replacement further to the front. */
  ghost predicate Orderly<K>(ours: seq<Clock<K>>, theirs: seq<Clock<K>>) {
    forall s, t :: 0 <= s < t < |theirs| && Confirms(ours, theirs[s]) && Replaces(ours, theirs[t]) ==>
      IndexOf(ours, theirs[s].key) < IndexOf(ours, theirs[t].key)
  }

  /** The clock `c` of theirs leaves our clock number `i` behind the insert position. */
  ghost predicate Spares<K>(ours: seq<Clock<K>>, c: Clock<K>, i: nat) {
    (Replaces(ours, c) ==> IndexOf(ours, c.key) != i) && (Confirms(ours, c) ==> IndexOf(ours, c.key) < i)
  }

  /** Where ours has the key of `c`. */
  function Place<K(==)>(ours: seq<Clock<K>>, c: Clock<K>): nat {
    IndexOf(ours, c.key)
  }

  /** A list of clocks of ours, in our order. */
  ghost predicate Ordered<K>(ours: seq<Clock<K>>, rest: seq<Clock<K>>) {
    && (forall a :: 0 <= a < |rest| ==> rest[a] in ours)
    && forall a, b :: 0 <= a < b < |rest| ==> Place(ours, rest[a]) < Place(ours, rest[b])
  }

  lemma EraseOrdered<K>(ours: seq<Clock<K>>, rest: seq<Clock<K>>, at: nat)
    requires Ordered(ours, rest) && at < |rest|
    ensures Ordered(ours, Erase(rest, at)) && Ordered(ours, rest[at + 1..])
  {
    hide Place;
    var r := Erase(rest, at);
    assert forall a :: 0 <= a < |r| ==> r[a] == rest[if a < at then a else a + 1];
  }

  /** Taking clocks off a list in our order leaves one. */
  lemma TakeOrdered<K>(ours: seq<Clock<K>>, rest: seq<Clock<K>>, at: nat, newer: bool, confirms: bool)
    requires Ordered(ours, rest) && (newer ==> at < |rest|)
    ensures Take(rest, at, newer, confirms).Some?
    ensures Ordered(ours, Take(rest, at, newer, confirms).value)
  {
    hide Ordered;
    if at < |rest| {
      EraseOrdered(ours, rest, at);
    }
  }

  /** Which clocks an erasure or a move past position `at` leaves. */
  lemma EraseSpares<K>(ours: seq<Clock<K>>, rest: seq<Clock<K>>, at: nat, d: Clock<K>)
    requires Ordered(ours, rest) && at < |rest| && d in rest
    ensures Place(ours, d) != Place(ours, rest[at]) ==> d in Erase(rest, at)
    ensures Place(ours, rest[at]) < Place(ours, d) ==> d in rest[at + 1..]
  {
    hide Place;
    var a :| 0 <= a < |rest| && rest[a] == d;
    if a < at {
      assert Erase(rest, at)[a] == d;
    } else if a > at {
      assert Erase(rest, at)[a - 1] == d && rest[at + 1..][a - at - 1] == d;
    }
  }

  /** One more clock of theirs takes no clock of ours away that it should spare. */
  lemma StaysSpared<K>(ours: seq<Clock<K>>, rest: seq<Clock<K>>, c: Clock<K>, i: nat)
    requires Distinct(ours) && Ordered(ours, rest) && (Replaces(ours, c) ==> IndexOf(rest, c.key) < |rest|)
    requires i < |ours| && ours[i] in rest && Spares(ours, c, i) && RemainingOne(ours, rest, c).Some?
    ensures ours[i] in RemainingOne(ours, rest, c).value
  {
    hide IndexOf, Ordered;
    var at := IndexOf(rest, c.key);
    IndexIs(ours, i);
    if at < |rest| {
      EraseSpares(ours, rest, at, ours[i]);
    }
  }

  /** What is spared stays, and there is no running out. */
  lemma OrderlyStep<K>(ours: seq<Clock<K>>, rest: seq<Clock<K>>, c: Clock<K>)
    requires Distinct(ours) && Ordered(ours, rest)
    requires Replaces(ours, c) ==> ours[IndexOf(ours, c.key)] in rest
    ensures RemainingOne(ours, rest, c).Some? && Ordered(ours, RemainingOne(ours, rest, c).value)
    ensures forall i :: 0 <= i < |ours| && ours[i] in rest && Spares(ours, c, i) ==>
              ours[i] in RemainingOne(ours, rest, c).value
  {
    hide IndexOf, Take, Ordered, Spares;
    TakeOrdered(ours, rest, IndexOf(rest, c.key), Replaces(ours, c), Confirms(ours, c));
    forall i | 0 <= i < |ours| && ours[i] in rest && Spares(ours, c, i)
      ensures ours[i] in RemainingOne(ours, rest, c).value
    {
      StaysSpared(ours, rest, c, i);
    }
  }

  /** In an orderly merge, what is left of ours includes all that was neither replaced nor passed. */
  lemma {:induction false} OrderlyRest<K(!new)>(ours: seq<Clock<K>>, theirs: seq<Clock<K>>)
    requires Distinct(ours) && Distinct(theirs) && Orderly(ours, theirs)
    ensures Remaining(ours, theirs).Some? && Ordered(ours, Remaining(ours, theirs).value)
    ensures forall i :: 0 <= i < |ours| && (forall t :: 0 <= t < |theirs| ==> Spares(ours, theirs[t], i)) ==>
              ours[i] in Remaining(ours, theirs).value
  {
    if theirs == [] {
      forall i | 0 <= i < |ours| ensures IndexOf(ours, ours[i].key) == i {
        IndexIs(ours, i);
      }
    } else {
      var n := |theirs| - 1;
      var before, c := theirs[..n], theirs[n];
      assert Orderly(ours, before) by {
        assert forall t :: 0 <= t < n ==> before[t] == theirs[t];
      }
      OrderlyRest(ours, before);
      var rest := Remaining(ours, before).value;
      if Replaces(ours, c) {
        var i := IndexOf(ours, c.key);
        forall t | 0 <= t < n ensures Spares(ours, before[t], i) {
          assert before[t] == theirs[t];
          if Replaces(ours, theirs[t]) {
            OtherIndex(ours, theirs, t, n);
          }
        }
        assert ours[i] in rest;
      }
      OrderlyStep(ours, rest, c);
      forall i | 0 <= i < |ours| && (forall t :: 0 <= t < |theirs| ==> Spares(ours, theirs[t], i))
        ensures ours[i] in RemainingOne(ours, rest, c).value
      {
        forall t | 0 <= t < n ensures Spares(ours, before[t], i) {
          assert before[t] == theirs[t];
        }
        assert Spares(ours, theirs[n], i);
      }
    }
  }

  /** Two clocks of theirs are not found at one place of ours. */
  lemma OtherIndex<K>(ours: seq<Clock<K>>, theirs: seq<Clock<K>>, s: nat, t: nat)
    requires Distinct(theirs) && s < t < |theirs| && IndexOf(ours, theirs[s].key) < |ours|
    ensures IndexOf(ours, theirs[s].key) != IndexOf(ours, theirs[t].key)
  {
  }

  /** An orderly merge is defined, and before dropping clocks it is the pointwise maximum; in particular when
      the shared clocks of theirs are all newer, or all not newer, than ours. */
  lemma OrderlyMerge<K(!new)>(ours: seq<Clock<K>>, theirs: seq<Clock<K>>)
    requires Distinct(ours) && Distinct(theirs)
    requires
      || Orderly(ours, theirs)
      || (forall t :: 0 <= t < |theirs| ==> !Replaces(ours, theirs[t]))
      || (forall t :: 0 <= t < |theirs| ==> !Confirms(ours, theirs[t]))
    ensures MergeWhole(ours, theirs).Some?
    ensures Maximum(MergeWhole(ours, theirs).value, ours, theirs)
  {
    assert Orderly(ours, theirs);
    OrderlyRest(ours, theirs);
    DefinedIff(ours, theirs);
    MergeIsMaximum(ours, theirs);
  }

  /** A mixed merge that runs past the end: our newer `b` is matched at the very end, then our older `a` in
      front of it is taken out. */
  lemma MixedRunsOut()
    ensures
      var ours, theirs := [Clock('a', 0, 1), Clock('b', 0, 5)], [Clock('b', 0, 1), Clock('a', 0, 2)];
      Distinct(ours) && Distinct(theirs) && MergeWhole(ours, theirs).None?
  {
    hide IndexOf, MergeAll, Erase;
    var ours, theirs := [Clock('a', 0, 1), Clock('b', 0, 5)], [Clock('b', 0, 1), Clock('a', 0, 2)];
    IndexIs(ours, 0);
    IndexIs(ours, 1);
    assert theirs[..1] == [theirs[0]] && theirs[..1][..0] == [];
    assert Remaining(ours, []) == Some(ours);
    assert RemainingOne(ours, ours, theirs[0]) == Some(ours[2..]) && ours[2..] == [];
    assert Remaining(ours, theirs[..1]) == Some([]);
    DefinedIff(ours, theirs);
  }

  // ----- disjoint vectors

  /** Two vectors without a common key are interlaced, ours first, and cut at the limit. */
  lemma DisjointInterleaves<K(!new)>(ours: seq<Clock<K>>, theirs: seq<Clock<K>>, limit: nat)
    requires Distinct(ours) && Distinct(theirs)
    requires forall i, j :: 0 <= i < |ours| && 0 <= j < |theirs| ==> ours[i].key != theirs[j].key
    ensures
      var w := Interleaved(ours, theirs);
      Merge(ours, theirs, limit) == Some(w[..Min(|w|, limit)])
  {
    hide Interleaved, MergeAll;
    DisjointInFront(ours, theirs);
    var w := Interleaved(ours, theirs);
    ReorientAll(theirs, ours);
    assert w[..|w|] == w;
  }

  lemma ReorientAll<T>(front: seq<T>, back: seq<T>)
    ensures Reorient(front + back, |front|, |front| + |back|) == Interleaved(back, front)
  {
    hide Interleaved;
    assert (front + back)[..|front|] == front;
    assert (front + back)[|front|..|front| + |back|] == back;
    assert Interleaved(back, front) + [] == Interleaved(back, front);
  }

  lemma AbsentAt<K>(a: seq<Clock<K>>, b: seq<Clock<K>>, c: Clock<K>)
    requires forall i :: 0 <= i < |a| ==> a[i].key != c.key
    requires forall i :: 0 <= i < |b| ==> b[i].key != c.key
    ensures IndexOf(a + b, c.key) == |a + b|
  {
    hide IndexOf;
    assert forall t :: 0 <= t < |a + b| ==> (a + b)[t].key != c.key;
  }

  lemma InsertBehind<K>(a: seq<Clock<K>>, b: seq<Clock<K>>, c: Clock<K>)
    requires forall i :: 0 <= i < |a| ==> a[i].key != c.key
    requires forall i :: 0 <= i < |b| ==> b[i].key != c.key
    ensures MergeOne(Merging(a + b, |a|, true), c) == Some(Merging(a + [c] + b, |a| + 1, true))
  {
    hide IndexOf;
    AbsentAt(a, b, c);
  }

  lemma {:induction false} DisjointInFront<K(!new)>(ours: seq<Clock<K>>, theirs: seq<Clock<K>>)
    requires Distinct(ours) && Distinct(theirs)
    requires forall i, j :: 0 <= i < |ours| && 0 <= j < |theirs| ==> ours[i].key != theirs[j].key
    ensures MergeAll(ours, theirs) == Some(Merging(theirs + ours, |theirs|, true))
  {
    if theirs == [] {
      assert theirs + ours == ours;
    } else {
      var n := |theirs| - 1;
      hide MergeOne;
      DisjointInFront(ours, theirs[..n]);
      InsertBehind(theirs[..n], ours, theirs[n]);
      assert theirs[..n] + [theirs[n]] == theirs;
    }
  }
}
