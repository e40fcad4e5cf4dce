/** The in-memory list of best times: player times, their order by time,
    and adding a time to the list, which keeps it sorted. */
module BestTimesList {

  /** A player's name, playing time in seconds and level name. */
  datatype PlayerTime = PlayerTime(name: string, time: int, level: string)

  /** -1, 0 or 1 as the first time is less than, equal to or greater than
      the second. */
  function CompareTo(a: PlayerTime, b: PlayerTime): (r: int)
    ensures r == -1 <==> a.time < b.time
    ensures r == 0 <==> a.time == b.time
    ensures r == 1 <==> a.time > b.time
  {
    if a.time < b.time then -1
    else if a.time > b.time then 1
    else 0
  }

  /** The comparison is antisymmetric and transitive: a total preorder by
      time. */
  lemma CompareToOrder(a: PlayerTime, b: PlayerTime, c: PlayerTime)
    ensures CompareTo(a, b) == -CompareTo(b, a)
    ensures CompareTo(a, b) <= 0 && CompareTo(b, c) <= 0 ==> CompareTo(a, c) <= 0
    ensures CompareTo(a, b) <= 0 || CompareTo(b, a) <= 0
  {
  }

  /** In non-decreasing order of time. */
  predicate Sorted(s: seq<PlayerTime>) {
    forall i, j | 0 <= i < j < |s| :: s[i].time <= s[j].time
  }

  /** Sorted is the order compareTo defines. */
  lemma SortedByCompareTo(s: seq<PlayerTime>)
    ensures Sorted(s) <==> forall i, j | 0 <= i < j < |s| :: CompareTo(s[i], s[j]) <= 0
  {
  }

  /** Puts p into the sorted list s after every entry whose time is not
      greater than p's. */
  function Insert(s: seq<PlayerTime>, p: PlayerTime): (r: seq<PlayerTime>)
    ensures |r| == |s| + 1
  {
    if s == [] then [p]
    else if CompareTo(p, s[0]) < 0 then [p] + s
    else [s[0]] + Insert(s[1..], p)
  }

  /** Inserting adds p and nothing else. */
  lemma {:induction false} InsertPermutes(s: seq<PlayerTime>, p: PlayerTime)
    ensures multiset(Insert(s, p)) == multiset(s) + multiset{p}
  {
    if s != [] && CompareTo(p, s[0]) >= 0 {
      InsertPermutes(s[1..], p);
      assert s == [s[0]] + s[1..];
    }
  }

  /** Inserting into a sorted list keeps it sorted. */
  lemma {:induction false} InsertSorted(s: seq<PlayerTime>, p: PlayerTime)
    requires Sorted(s)
    ensures Sorted(Insert(s, p))
  {
    if s == [] {
    } else if CompareTo(p, s[0]) < 0 {
      SortedCons(p, s);
    } else {
      var r := Insert(s[1..], p);
      InsertSorted(s[1..], p);
      InsertPermutes(s[1..], p);
      forall y | y in r ensures s[0].time <= y.time {
        assert y in multiset(r);
      }
      SortedCons(s[0], r);
    }
  }

  /** An entry no later than any of a sorted list can go in front of it. */
  lemma SortedCons(x: PlayerTime, s: seq<PlayerTime>)
    requires Sorted(s) && forall y | y in s :: x.time <= y.time
    ensures Sorted([x] + s)
  {
  }

  /** Sorting by time, stably: entries with equal times keep their order
      (Collections.sort is a stable sort). */
  function SortByTime(s: seq<PlayerTime>): (r: seq<PlayerTime>)
    ensures |r| == |s|
  {
    if s == [] then []
    else Insert(SortByTime(s[..|s| - 1]), s[|s| - 1])
  }

  /** The sort orders the list by time and keeps its entries. */
  lemma {:induction false} SortByTimeSorts(s: seq<PlayerTime>)
    ensures Sorted(SortByTime(s))
    ensures multiset(SortByTime(s)) == multiset(s)
  {
    if s != [] {
      var init, last := s[..|s| - 1], s[|s| - 1];
      SortByTimeSorts(init);
      InsertSorted(SortByTime(init), last);
      InsertPermutes(SortByTime(init), last);
      assert s == init + [last];
    }
  }

  /** The entries with time t, in order. */
  function WithTime(s: seq<PlayerTime>, t: int): seq<PlayerTime> {
    if s == [] then []
    else (if s[0].time == t then [s[0]] else []) + WithTime(s[1..], t)
  }

  lemma {:induction false} WithTimeAppend(s: seq<PlayerTime>, u: seq<PlayerTime>, t: int)
    ensures WithTime(s + u, t) == WithTime(s, t) + WithTime(u, t)
  {
    if s == [] {
      assert s + u == u;
    } else {
      var v := s + u;
      assert v[0] == s[0] && v[1..] == s[1..] + u;
      WithTimeAppend(s[1..], u, t);
      assert WithTime(v, t) == (if s[0].time == t then [s[0]] else []) + WithTime(s[1..] + u, t);
    }
  }

  /** Inserting p into a sorted list puts it after every entry with the
      same time. */
  lemma {:induction false} InsertAfterEqual(s: seq<PlayerTime>, p: PlayerTime, t: int)
    requires Sorted(s)
    ensures WithTime(Insert(s, p), t) == WithTime(s, t) + (if p.time == t then [p] else [])
  {
    if s == [] {
    } else if CompareTo(p, s[0]) < 0 {
      if p.time == t {
        NoneWithTime(s, t);
      }
      WithTimeAppend([p], s, t);
    } else {
      InsertAfterEqual(s[1..], p, t);
      WithTimeAppend([s[0]], Insert(s[1..], p), t);
      assert ([s[0]] + Insert(s[1..], p))[1..] == Insert(s[1..], p);
    }
  }

  /** A sorted list whose first time exceeds t has no entry with time t. */
  lemma {:induction false} NoneWithTime(s: seq<PlayerTime>, t: int)
    requires Sorted(s) && s != [] && t < s[0].time
    ensures WithTime(s, t) == []
  {
    if |s| > 1 {
      assert Sorted(s[1..]);
      NoneWithTime(s[1..], t);
    }
  }

  /** Stability: the sort keeps the order of the entries of every time. */
  lemma {:induction false} SortByTimeStable(s: seq<PlayerTime>, t: int)
    ensures WithTime(SortByTime(s), t) == WithTime(s, t)
  {
    if s != [] {
      var init, last := s[..|s| - 1], s[|s| - 1];
      assert s == init + [last];
      assert SortByTime(s) == Insert(SortByTime(init), last);
      SortByTimeSorts(init);
      SortByTimeStable(init, t);
      InsertAfterEqual(SortByTime(init), last, t);
      WithTimeAppend(init, [last], t);
      assert WithTime([last], t) == (if last.time == t then [last] else []) + WithTime([], t);
    }
  }

  /** Inserting an entry that is not earlier than any puts it last. */
  lemma {:induction false} InsertLast(s: seq<PlayerTime>, p: PlayerTime)
    requires forall i | 0 <= i < |s| :: s[i].time <= p.time
    ensures Insert(s, p) == s + [p]
  {
    if s != [] {
      InsertLast(s[1..], p);
      assert s == [s[0]] + s[1..];
    }
  }

  /** Sorting a sorted list leaves it as it is. */
  lemma {:induction false} SortSortedIsIdentity(s: seq<PlayerTime>)
    requires Sorted(s)
    ensures SortByTime(s) == s
  {
    if s != [] {
      var init, last := s[..|s| - 1], s[|s| - 1];
      assert Sorted(init);
      SortSortedIsIdentity(init);
      InsertLast(init, last);
      assert s == init + [last];
    }
  }

  /** The best-times list. */
  class BestTimes {
    var playerTimes: seq<PlayerTime>

    constructor ()
      ensures playerTimes == []
    {
      playerTimes := [];
    }

    /** Appends the new time, then sorts the list by time. */
    method AddPlayerTime(name: string, time: int, level: string)
      modifies this
      ensures playerTimes == SortByTime(old(playerTimes) + [PlayerTime(name, time, level)])
    {
      var player := PlayerTime(name, time, level);
      playerTimes := playerTimes + [player];
      playerTimes := SortByTime(playerTimes);
    }
  }

  /** Adding to a sorted list inserts the new time after every time not
      greater than it, and leaves the rest of the list in place. */
  lemma AddToSorted(s: seq<PlayerTime>, p: PlayerTime)
    requires Sorted(s)
    ensures SortByTime(s + [p]) == Insert(s, p)
  {
    assert (s + [p])[..|s + [p]| - 1] == s;
    SortSortedIsIdentity(s);
  }
}
