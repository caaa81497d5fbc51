/** The vector itself, with its loops: the clocks are edited in place, and each operation is tied to the
    functions of `VectorClocks` and `VectorMerge`. The version vector and the time vector run the same code
    but for `increment`, so one class stands for both. */
module BoundedVector {
  import opened Options
  import opened VectorClocks
  import opened VectorMerge

  /** What comparing a vector before and after an increment answers, both ways: LESS_THAN exactly when the new
      clock is newer and there is room for two clocks or no other key is stored, or when the vector was full
      and the key behind the first place of its older half. */
  ghost predicate Answers<K>(was: seq<Clock<K>>, now: seq<Clock<K>>, key: K, newer: bool, older: bool, limit: nat) {
    var i, n := IndexOf(was, key), |was|;
    var answer := RenewAnswer(i, n, limit, newer, older);
    && VectorClocks.Compare(was, now, limit) == answer
    && VectorClocks.Compare(now, was, limit) == Flip(answer)
    && (answer == LESS_THAN <==>
          (newer && (limit >= 2 || (limit == 1 && i == 0))) || (n == limit && limit - limit / 2 < i < n))
  }

  class BoundedVector<K(==, !new)> {
    const limit: nat
    var clocks: seq<Clock<K>>

    constructor (limit: nat, clocks: seq<Clock<K>>)
      ensures this.limit == limit && this.clocks == clocks
    {
      this.limit, this.clocks := limit, clocks;
    }

    /** The edit both `increment`s make: the new clock goes in front, the old one out, and what is past the
        limit off the back. */
    method PushFront(c: Clock<K>)
      modifies this`clocks
      ensures clocks == Renew(old(clocks), c, limit)
      ensures Distinct(old(clocks)) && |old(clocks)| <= limit ==>
                && Distinct(clocks)
                && Answers(old(clocks), clocks, c.key, Newer(old(clocks), c), Older(old(clocks), c), limit)
    {
      ghost var was := clocks;
      var it := IndexOf(clocks, c.key);
      if it == |clocks| {
        clocks := [c] + clocks;
      } else {
        clocks := [c] + clocks;
        clocks := Erase(clocks, it + 1);
        assert clocks == [c] + was[..it] + was[it + 1..];
      }
      if |clocks| > limit {
        clocks := clocks[..|clocks| - 1];
      }
      if Distinct(was) && |was| <= limit {
        IncrementAnswer(was, c, limit);
        if limit > 0 {
          RenewPlaces(was, c, limit);
        }
      }
    }

    /** The version vector's `increment`. */
    method IncrementVersion(key: K)
      requires Fits(clocks, 0x1_0000_0000) && forall c :: c in clocks ==> c.time == 0
      modifies this`clocks
      ensures clocks == Renew(old(clocks), NextVersion(old(clocks), key), limit)
      ensures limit > 0 && |old(clocks)| <= limit ==>
                var i := IndexOf(old(clocks), key);
                clocks != [] && clocks[0].key == key
                && clocks[0].count == if i == |old(clocks)| then 1 else (old(clocks)[i].count + 1) % 0x1_0000_0000
      ensures Distinct(old(clocks)) && |old(clocks)| <= limit ==>
                var i := IndexOf(old(clocks), key);
                var wraps := i < |old(clocks)| && old(clocks)[i].count == 0xFFFF_FFFF;
                Answers(old(clocks), clocks, key, !wraps, wraps, limit)
    {
      VersionGoesUp(clocks, key);
      var it := IndexOf(clocks, key);
      if it == |clocks| {
        PushFront(Clock(key, 0, 1));
      } else {
        PushFront(Clock(key, 0, (clocks[it].count + 1) % 0x1_0000_0000));
      }
    }

    /** The time vector's `increment`, given the wall clock's time. */
    method IncrementTime(key: K, time: nat)
      requires Fits(clocks, 0x1_0000)
      modifies this`clocks
      ensures clocks == Renew(old(clocks), NextTime(old(clocks), key, time), limit)
      ensures limit > 0 && |old(clocks)| <= limit ==>
                var i := IndexOf(old(clocks), key);
                clocks != [] && clocks[0].key == key
                && if i < |old(clocks)| && time <= old(clocks)[i].time then
                     clocks[0].time == old(clocks)[i].time && clocks[0].count == (old(clocks)[i].count + 1) % 0x1_0000
                   else clocks[0].time == time && clocks[0].count == 0
      ensures Distinct(old(clocks)) && |old(clocks)| <= limit ==>
                var i := IndexOf(old(clocks), key);
                var wraps := i < |old(clocks)| && time <= old(clocks)[i].time && old(clocks)[i].count == 0xFFFF;
                Answers(old(clocks), clocks, key, !wraps, wraps, limit)
    {
      TimeGoesUp(clocks, key, time);
      var it := IndexOf(clocks, key);
      if it == |clocks| {
        PushFront(Clock(key, time, 0));
      } else {
        var count, stamp := 0, time;
        if time <= clocks[it].time {
          count, stamp := (clocks[it].count + 1) % 0x1_0000, clocks[it].time;
        }
        PushFront(Clock(key, stamp, count));
      }
    }

    method FindEnd(cs: seq<Clock<K>>, candidates: seq<Clock<K>>) returns (end: nat)
      ensures end == VectorClocks.FindEnd(cs, candidates, limit)
    {
      if |candidates| >= limit {
        var next := |candidates| - limit / 2;
        while next != |candidates|
          invariant next <= |candidates|
          invariant FindEndFrom(cs, candidates, next) == FindEndFrom(cs, candidates, |candidates| - limit / 2)
          decreases |candidates| - next
        {
          var it := FindElem(cs, candidates[next]);
          if it != |cs| {
            return it;
          }
          next := next + 1;
        }
      }
      return |cs|;
    }

    /** `std::copy` into a `std::set`: the first clock of a key stays. */
    method KeySet(cs: seq<Clock<K>>) returns (keyed: map<K, Clock<K>>)
      ensures keyed == ByKey(cs)
      ensures forall c :: c in cs ==>
                IndexOf(cs, c.key) < |cs| && c.key in keyed && keyed[c.key] == cs[IndexOf(cs, c.key)]
    {
      keyed := map[];
      for i := 0 to |cs|
        invariant keyed == ByKey(cs[..i])
      {
        assert cs[..i + 1][..i] == cs[..i];
        if cs[i].key !in keyed {
          keyed := keyed[cs[i].key := cs[i]];
        }
      }
      assert cs[..|cs|] == cs;
      forall c | c in cs
        ensures IndexOf(cs, c.key) < |cs| && c.key in keyed && keyed[c.key] == cs[IndexOf(cs, c.key)]
      {
        IndexFirst(cs, c.key);
        ByKeyFirst(cs, c.key);
      }
    }

    /** The inner `compare`, walking the first set and striking out of the second. */
    method CompareCut(lesser: seq<Clock<K>>, greater: seq<Clock<K>>) returns (result: Comparison)
      ensures result == VectorClocks.CompareCut(lesser, greater, limit)
    {
      var lesserEnd := FindEnd(lesser, greater);
      var greaterEnd := FindEnd(greater, lesser);
      var first := KeySet(lesser[..lesserEnd]);
      var second := KeySet(greater[..greaterEnd]);
      var isLess, isGreater := Strike(first, second);
      result := Bits(isLess, isGreater);
    }

    method Strike(first: map<K, Clock<K>>, second: map<K, Clock<K>>) returns (isLess: bool, isGreater: bool)
      ensures isLess == Exceeds(second, first) && isGreater == Exceeds(first, second)
    {
      isLess, isGreater := false, false;
      var left, rest := first.Keys, second;
      while left != {}
        invariant left <= first.Keys
        invariant rest == second - (first.Keys - left)
        invariant isGreater <==> exists k :: k in first && k !in left && (k !in second || Before(second[k], first[k]))
        invariant isLess <==> exists k :: k in first && k !in left && k in second && Before(first[k], second[k])
        decreases left
      {
        var k :| k in left;
        ghost var was := left;
        left := left - {k};
        assert forall x :: x in first && x !in left <==> (x in first && x !in was) || x == k;
        if k !in rest {
          isGreater := true;
          continue;
        }
        if Before(first[k], rest[k]) {
          isLess := true;
        } else if Before(rest[k], first[k]) {
          isGreater := true;
        }
        rest := rest - {k};
      }
      assert forall k :: k in second && k !in first ==> k in rest;
      assert forall k :: k in rest ==> k in second && k !in first;
      if rest != map[] {
        var k :| k in rest;
        isLess := true;
      }
    }

    method Compare(other: BoundedVector<K>) returns (result: Comparison)
      ensures result == VectorClocks.Compare(clocks, other.clocks, limit)
    {
      if |clocks| > |other.clocks| {
        result := CompareCut(other.clocks, clocks);
        if result == GREATER_THAN {
          result := LESS_THAN;
        } else if result == LESS_THAN {
          result := GREATER_THAN;
        }
        result := OrGreater(result);
      } else {
        result := CompareCut(clocks, other.clocks);
      }
    }

    method Reorient(additions: nat, total: nat)
      requires additions <= total <= |clocks|
      modifies this`clocks
      ensures clocks == VectorMerge.Reorient(old(clocks), additions, total)
    {
      ghost var was := clocks;
      ghost var a, b := was[..additions], was[additions..total];
      var len := Min(additions, total - additions);
      assert clocks == a + b + was[total..];
      for i := 0 to len
        invariant clocks == HalfWay(a, b, was[total..], i)
      {
        var movingOnUp := clocks[additions + i];
        ReorientTurn(a, b, was[total..], i);
        clocks := Erase(clocks, additions + i);
        clocks := Insert(clocks, 2 * i, movingOnUp);
      }
    }

    /** The loop body of `merge` for the clock `c` of the other side. Where the source would go past the end of
        its list, which has no defined effect, this stops and says so. */
    method MergeClock(c: Clock<K>, prev: nat, unmatched: bool) returns (prevIndex: nat, noMatch: bool, inside: bool)
      requires prev <= |clocks|
      modifies this`clocks
      ensures inside <==> MergeOne(Merging(old(clocks), prev, unmatched), c).Some?
      ensures inside ==>
                Some(Merging(clocks, prevIndex, noMatch)) == MergeOne(Merging(old(clocks), prev, unmatched), c)
    {
      hide VectorMerge.Reorient;
      prevIndex, noMatch, inside := prev, unmatched, true;
      var current := IndexOf(clocks, c.key);
      if current == |clocks| {
        clocks := Insert(clocks, prevIndex, c);
        prevIndex := prevIndex + 1;
      } else if Before(clocks[current], c) {
        clocks := Erase(clocks, current);
        if prevIndex > |clocks| {
          inside := false;
          return;
        }
        clocks := Insert(clocks, prevIndex, c);
        prevIndex := prevIndex + 1;
      } else {
        if noMatch {
          if prevIndex > current {
            inside := false;
            return;
          }
          Reorient(prevIndex, current);
          noMatch := false;
        }
        if prevIndex <= current {
          prevIndex := current + 1;
        }
      }
    }

    method PopToLimit()
      modifies this`clocks
      ensures clocks == if |old(clocks)| > limit then old(clocks)[..limit] else old(clocks)
    {
      ghost var whole := clocks;
      assert whole[..|whole|] == whole;
      while |clocks| > limit
        invariant Min(|whole|, limit) <= |clocks| <= |whole| && clocks == whole[..|clocks|]
        decreases |clocks|
      {
        clocks := clocks[..|clocks| - 1];
      }
    }

    /** `merge`, and whether it stays inside the list. */
    method Merge(other: BoundedVector<K>) returns (inside: bool)
      modifies this`clocks
      ensures inside <==> MergeWhole(old(clocks), old(other.clocks)).Some?
      ensures inside ==> Some(clocks) == VectorMerge.Merge(old(clocks), old(other.clocks), limit)
      ensures inside && Distinct(old(clocks)) && Distinct(old(other.clocks)) ==> Distinct(clocks) && |clocks| <= limit
    {
      hide MergeOne, VectorMerge.Reorient;
      ghost var ours := clocks;
      var theirs := other.clocks;
      var noMatch, prevIndex := true, 0;
      assert theirs[..|theirs|] == theirs;
      for i := 0 to |theirs|
        invariant MergeAll(ours, theirs[..i]) == Some(Merging(clocks, prevIndex, noMatch))
      {
        assert theirs[..i + 1][..i] == theirs[..i];
        prevIndex, noMatch, inside := MergeClock(theirs[i], prevIndex, noMatch);
        if !inside {
          if MergeAll(ours, theirs).Some? {
            MergedSoFar(ours, theirs, i + 1);
          }
          return;
        }
      }
      inside := true;
      if noMatch {
        Reorient(|theirs|, |clocks|);
      }
      PopToLimit();
      if Distinct(ours) && Distinct(theirs) {
        MergeKeeps(ours, theirs, limit);
      }
    }
  }

  /** `reorient` after `i` turns on additions `a`, ours `b` and the rest. */
  ghost function HalfWay<T>(a: seq<T>, b: seq<T>, rest: seq<T>, i: nat): seq<T>
    requires i <= |a| && i <= |b|
  {
    Weave(b, a, i) + a[i..] + b[i..] + rest
  }

  lemma ReorientTurn<T>(a: seq<T>, b: seq<T>, rest: seq<T>, i: nat)
    requires i < |a| && i < |b|
    ensures
      var s := HalfWay(a, b, rest, i);
      s[|a| + i] == b[i] && Insert(Erase(s, |a| + i), 2 * i, b[i]) == HalfWay(a, b, rest, i + 1)
  {
    hide Insert, Erase;
    var w, p, q := Weave(b, a, i), a[i..], b[i + 1..] + rest;
    assert HalfWay(a, b, rest, i) == w + p + [b[i]] + q;
    MoveUp(w, p, b[i], q);
    assert p == [a[i]] + a[i + 1..];
    assert w + [b[i]] + p + q == w + [b[i], a[i]] + a[i + 1..] + b[i + 1..] + rest;
  }

  lemma MoveUp<T>(w: seq<T>, p: seq<T>, x: T, q: seq<T>)
    ensures Insert(Erase(w + p + [x] + q, |w| + |p|), |w|, x) == w + [x] + p + q
  {
    assert Erase(w + p + [x] + q, |w| + |p|) == w + p + q;
    assert (w + p + q)[..|w|] == w && (w + p + q)[|w|..] == p + q;
  }

  /** A merge that is defined is so at every turn. */
  lemma {:induction false} MergedSoFar<K>(ours: seq<Clock<K>>, theirs: seq<Clock<K>>, i: nat)
    requires MergeAll(ours, theirs).Some? && i <= |theirs|
    ensures MergeAll(ours, theirs[..i]).Some?
  {
    var n := |theirs| - 1;
    if i <= n {
      MergedSoFar(ours, theirs[..n], i);
      assert theirs[..n][..i] == theirs[..i];
    } else {
      assert theirs[..i] == theirs;
    }
  }
}
