/**
 * The per-row ordering of plan segments: a stable sort ascending by start,
 * as `toSorted((a, b) => a.s - b.s)` produces.
 */
module SegmentSort {
  import opened ShiftModel

  predicate SortedByStart(xs: seq<Interval>) {
    forall i, j :: 0 <= i < j < |xs| ==> xs[i].s <= xs[j].s
  }

  /** The elements of `xs` that start at `t`, in their order in `xs`. */
  function WithStart(xs: seq<Interval>, t: int): seq<Interval>
    decreases |xs|
  {
    if xs == [] then []
    else (if xs[0].s == t then [xs[0]] else []) + WithStart(xs[1..], t)
  }

  /** Puts `x` in front of the first element that does not start before it. */
  function Insert(x: Interval, ys: seq<Interval>): (r: seq<Interval>)
    ensures |r| == |ys| + 1
    decreases |ys|
  {
    if ys == [] || x.s <= ys[0].s then [x] + ys
    else [ys[0]] + Insert(x, ys[1..])
  }

  /** Insertion adds exactly `x`. */
  lemma {:induction false} InsertMultiset(x: Interval, ys: seq<Interval>)
    ensures multiset(Insert(x, ys)) == multiset(ys) + multiset{x}
    decreases |ys|
  {
    if ys != [] && ys[0].s < x.s {
      InsertMultiset(x, ys[1..]);
      assert ys == [ys[0]] + ys[1..];
    }
  }

  /** Insertion into a sorted sequence keeps it sorted. */
  lemma {:induction false} InsertSorted(x: Interval, ys: seq<Interval>)
    requires SortedByStart(ys)
    ensures SortedByStart(Insert(x, ys))
    decreases |ys|
  {
    if ys != [] && ys[0].s < x.s {
      var rest := Insert(x, ys[1..]);
      InsertSorted(x, ys[1..]);
      InsertMultiset(x, ys[1..]);
      forall j | 0 <= j < |rest|
        ensures ys[0].s <= rest[j].s
      {
        assert rest[j] in multiset(rest);
        if rest[j] != x {
          assert rest[j] in multiset(ys[1..]);
          var m :| 0 <= m < |ys[1..]| && ys[1..][m] == rest[j];
          assert ys[m + 1] == rest[j];
        }
      }
    }
  }

  /** Inserting `x` adds it to the front of its own start group and leaves every other group alone. */
  lemma {:induction false} InsertWithStart(x: Interval, ys: seq<Interval>, t: int)
    ensures WithStart(Insert(x, ys), t) == (if x.s == t then [x] else []) + WithStart(ys, t)
    decreases |ys|
  {
    if ys == [] || x.s <= ys[0].s {
      assert ([x] + ys)[1..] == ys;
    } else {
      var r := Insert(x, ys);
      assert r[0] == ys[0] && r[1..] == Insert(x, ys[1..]);
      InsertWithStart(x, ys[1..], t);
    }
  }

  /** Insertion sort from the back of the sequence; each element lands before the equal starts that follow it. */
  function SortByStart(xs: seq<Interval>): (r: seq<Interval>)
    ensures SortedByStart(r)
    ensures multiset(r) == multiset(xs)
    ensures |r| == |xs|
    decreases |xs|
  {
    if xs == [] then []
    else
      var rest := SortByStart(xs[1..]);
      InsertMultiset(xs[0], rest);
      InsertSorted(xs[0], rest);
      assert xs == [xs[0]] + xs[1..];
      Insert(xs[0], rest)
  }

  /** The sort is stable: segments with equal starts keep their input order. */
  lemma {:induction false} SortByStartStable(xs: seq<Interval>, t: int)
    ensures WithStart(SortByStart(xs), t) == WithStart(xs, t)
    decreases |xs|
  {
    if xs != [] {
      InsertWithStart(xs[0], SortByStart(xs[1..]), t);
      SortByStartStable(xs[1..], t);
    }
  }

  /** Sorting keeps exactly the same segments, so membership facts carry over. */
  lemma SortByStartSameMembers(xs: seq<Interval>, x: Interval)
    ensures x in SortByStart(xs) <==> x in xs
  {
    assert x in SortByStart(xs) <==> x in multiset(SortByStart(xs));
    assert x in xs <==> x in multiset(xs);
  }

  /** An already sorted row is left as it is. */
  lemma {:induction false} SortByStartSortedIdentity(xs: seq<Interval>)
    requires SortedByStart(xs)
    ensures SortByStart(xs) == xs
    decreases |xs|
  {
    if xs != [] {
      var tail := xs[1..];
      forall i, j | 0 <= i < j < |tail|
        ensures tail[i].s <= tail[j].s
      {
        assert tail[i] == xs[i + 1] && tail[j] == xs[j + 1];
      }
      SortByStartSortedIdentity(tail);
      if tail != [] {
        assert xs[0].s <= xs[1].s;
      }
      assert Insert(xs[0], tail) == [xs[0]] + tail;
      assert [xs[0]] + tail == xs;
    }
  }
}
