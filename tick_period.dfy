/**
 * A tick period: a double-ended queue of trades kept in trade-id order,
 * together with the ids and timestamps of its first and last trade. In
 * consecutive mode only trades adjacent to either end are accepted, so the
 * ids form a run without gaps; in non-consecutive mode a trade is inserted
 * at its place in id order.
 */
module TickPeriod {

  /** The fields of a trade that the period looks at. */
  datatype Tick = Tick(id: int, timestamp: int)

  function Ids(s: seq<Tick>): (r: seq<int>)
    ensures |r| == |s| && forall k :: 0 <= k < |s| ==> r[k] == s[k].id
  {
    if s == [] then [] else [s[0].id] + Ids(s[1..])
  }

  function Timestamps(s: seq<Tick>): (r: seq<int>)
    ensures |r| == |s| && forall k :: 0 <= k < |s| ==> r[k] == s[k].timestamp
  {
    if s == [] then [] else [s[0].timestamp] + Timestamps(s[1..])
  }

  /** Ids strictly increase along the queue. */
  predicate IdOrdered(s: seq<Tick>)
  {
    forall i, j :: 0 <= i < j < |s| ==> s[i].id < s[j].id
  }

  /** Ids form a run without gaps. */
  predicate IdRun(s: seq<Tick>)
  {
    forall k :: 0 <= k < |s| ==> s[k].id == s[0].id + k
  }

  class TickPeriod {
    var ticks: seq<Tick>
    var firstTid: int
    var lastTid: int
    var firstTs: int
    var lastTs: int
    var consecutive: bool
    var numSaved: int

    /** The bookkeeping fields describe the two ends of the queue, which is in
      * id order, and without gaps in consecutive mode. */
    predicate Valid()
      reads this
    {
      IdOrdered(ticks)
      && (consecutive ==> IdRun(ticks))
      && (ticks != [] ==>
            firstTid == ticks[0].id && lastTid == ticks[|ticks| - 1].id
            && firstTs == ticks[0].timestamp && lastTs == ticks[|ticks| - 1].timestamp)
    }

    constructor (consecutive: bool)
      ensures Valid() && ticks == [] && this.consecutive == consecutive
      ensures firstTid == 0 && lastTid == 0 && firstTs == 0 && lastTs == 0 && numSaved == 0
    {
      ticks := [];
      this.consecutive := consecutive;
      firstTid, lastTid, firstTs, lastTs := 0, 0, 0, 0;
      numSaved := 0;
    }

    /** A period seeded with a placeholder id at both ends. */
    constructor WithDummyId(dummyTid: int, consecutive: bool)
      ensures Valid() && ticks == [] && this.consecutive == consecutive
      ensures firstTid == dummyTid && lastTid == dummyTid && firstTs == 0 && lastTs == 0 && numSaved == 0
    {
      ticks := [];
      this.consecutive := consecutive;
      firstTid, lastTid, firstTs, lastTs := dummyTid, dummyTid, 0, 0;
      numSaved := 0;
    }

    /** `reset()`: zeroes the end ids and timestamps, keeps the trades. */
    method Reset()
      requires ticks == []
      modifies this
      ensures Valid() && ticks == [] && consecutive == old(consecutive) && numSaved == old(numSaved)
      ensures firstTid == 0 && lastTid == 0 && firstTs == 0 && lastTs == 0
    {
      firstTid, lastTid, firstTs, lastTs := 0, 0, 0, 0;
    }

    /** `clear()`: empties the queue and zeroes every counter. */
    method Clear()
      modifies this
      ensures Valid() && ticks == [] && consecutive == old(consecutive)
      ensures firstTid == 0 && lastTid == 0 && firstTs == 0 && lastTs == 0 && numSaved == 0
    {
      ticks := [];
      firstTid, lastTid, firstTs, lastTs := 0, 0, 0, 0;
      numSaved := 0;
    }

    /**
     * `append(t)`: 1 when the trade went to the back (or into an empty
     * period), 2 when it went to the front, 3 when it was inserted inside,
     * 0 when a trade with its id is already there and -1 when, in
     * consecutive mode, it is neither adjacent to nor inside the run.
     */
    method Append(t: Tick) returns (code: int)
      requires Valid()
      modifies this
      ensures Valid() && consecutive == old(consecutive) && numSaved == old(numSaved)
      ensures old(ticks) == [] ==> code == 1 && ticks == [t]
      ensures old(ticks) != [] && (if consecutive then t.id == old(firstTid) - 1 else t.id < old(firstTid))
              ==> code == 2 && ticks == [t] + old(ticks)
      ensures old(ticks) != [] && (if consecutive then t.id == old(lastTid) + 1 else t.id > old(lastTid))
              ==> code == 1 && ticks == old(ticks) + [t]
      ensures old(ticks) != [] && old(firstTid) <= t.id <= old(lastTid)
              ==> (code == 0 <==> t.id in Ids(old(ticks))) && (code == 0 || code == 3)
      ensures code == 3 ==> exists k :: 0 < k < |old(ticks)| && ticks == old(ticks)[..k] + [t] + old(ticks)[k..]
      ensures code == -1 <==> consecutive && old(ticks) != [] && (t.id < old(firstTid) - 1 || t.id > old(lastTid) + 1)
      ensures code <= 0 ==> ticks == old(ticks) && firstTid == old(firstTid) && lastTid == old(lastTid)
      ensures code == 3 ==> firstTid == old(firstTid) && lastTid == old(lastTid)
      ensures code > 0 ==> t.id !in Ids(old(ticks)) && multiset(ticks) == multiset(old(ticks)) + multiset{t}
    {
      if |ticks| == 0 {
        firstTs, lastTs := t.timestamp, t.timestamp;
        firstTid, lastTid := t.id, t.id;
        ticks := [t];
        return 1;
      }
      if (consecutive && firstTid == t.id + 1) || (!consecutive && firstTid > t.id) {
        PushFront(t);
        return 2;
      } else if (consecutive && lastTid == t.id - 1) || (!consecutive && lastTid < t.id) {
        PushBack(t);
        return 1;
      } else if t.id <= lastTid && t.id >= firstTid {
        code := AppendInside(t);
      } else {
        NotInOrdered(ticks, t.id);
        return -1;
      }
    }

    /** The branch of `append` for an id between the first and the last: in
      * consecutive mode the id is known to be present; otherwise the queue is
      * searched and the trade inserted at its slot unless its id is found. */
    method AppendInside(t: Tick) returns (code: int)
      requires Valid() && ticks != [] && firstTid <= t.id <= lastTid
      modifies this
      ensures Valid() && consecutive == old(consecutive) && numSaved == old(numSaved)
      ensures firstTid == old(firstTid) && lastTid == old(lastTid)
      ensures code == 0 <==> t.id in Ids(old(ticks))
      ensures code == 0 || code == 3
      ensures code == 0 ==> ticks == old(ticks)
      ensures code == 3 ==> exists k :: 0 < k < |old(ticks)| && ticks == old(ticks)[..k] + [t] + old(ticks)[k..]
      ensures code == 3 ==> multiset(ticks) == multiset(old(ticks)) + multiset{t}
    {
      var found := consecutive;
      var i := 0;
      if !consecutive {
        i, found := FindSlot(ticks, t.id);
      }
      if !found {
        SearchSlot(ticks, i, t);
        InsertAt(i, t);
        return 3;
      } else {
        if consecutive {
          RunHasEveryId(ticks, t.id);
        }
        return 0;
      }
    }

    /** `push_front` with the first id and timestamp following it. */
    method PushFront(t: Tick)
      requires Valid() && ticks != [] && t.id < firstTid
      requires consecutive ==> t.id == firstTid - 1
      modifies this
      ensures Valid() && ticks == [t] + old(ticks)
      ensures consecutive == old(consecutive) && numSaved == old(numSaved)
      ensures firstTid == t.id && lastTid == old(lastTid)
      ensures t.id !in Ids(old(ticks)) && multiset(ticks) == multiset(old(ticks)) + multiset{t}
    {
      NotInOrdered(ticks, t.id);
      ConsKeepsOrder(t, ticks);
      firstTs := t.timestamp;
      firstTid := t.id;
      ticks := [t] + ticks;
    }

    /** `push_back` with the last id and timestamp following it. */
    method PushBack(t: Tick)
      requires Valid() && ticks != [] && t.id > lastTid
      requires consecutive ==> t.id == lastTid + 1
      modifies this
      ensures Valid() && ticks == old(ticks) + [t]
      ensures consecutive == old(consecutive) && numSaved == old(numSaved)
      ensures lastTid == t.id && firstTid == old(firstTid)
      ensures t.id !in Ids(old(ticks)) && multiset(ticks) == multiset(old(ticks)) + multiset{t}
    {
      NotInOrdered(ticks, t.id);
      SnocKeepsOrder(ticks, t);
      lastTs := t.timestamp;
      lastTid := t.id;
      ticks := ticks + [t];
    }

    /** `insert` at a slot strictly inside a non-consecutive period. */
    method InsertAt(i: int, t: Tick)
      requires Valid() && !consecutive && 0 < i < |ticks|
      requires ticks[i - 1].id < t.id < ticks[i].id
      modifies this
      ensures Valid() && ticks == old(ticks)[..i] + [t] + old(ticks)[i..]
      ensures multiset(ticks) == multiset(old(ticks)) + multiset{t}
      ensures consecutive == old(consecutive) && numSaved == old(numSaved)
      ensures firstTid == old(firstTid) && lastTid == old(lastTid)
    {
      InsertInside(ticks, i, t);
      InsertCounts(ticks, i, t);
      ticks := ticks[..i] + [t] + ticks[i..];
    }
  }

  /**
   * The search loop of `append` in non-consecutive mode: walks the queue
   * from the front and stops at the trade with the id (found) or at the
   * first trade with a larger id, or at the end.
   */
  method FindSlot(s: seq<Tick>, id: int) returns (i: int, found: bool)
    requires IdOrdered(s)
    ensures 0 <= i <= |s|
    ensures found <==> id in Ids(s)
    ensures found ==> i < |s| && s[i].id == id
    ensures !found ==> (forall k :: 0 <= k < i ==> s[k].id < id) && (i < |s| ==> s[i].id > id)
  {
    i, found := 0, false;
    while i < |s|
      invariant 0 <= i <= |s|
      invariant forall k :: 0 <= k < i ==> s[k].id < id
    {
      if s[i].id == id {
        found := true;
        break;
      } else if s[i].id > id {
        forall k | i < k < |s| ensures s[k].id != id {
          assert s[i].id < s[k].id;
        }
        break;
      }
      i := i + 1;
    }
  }

  /** The slot where the ordered search stops lies strictly inside the queue,
    * and the id is not yet there. */
  lemma SearchSlot(s: seq<Tick>, i: int, t: Tick)
    requires IdOrdered(s) && 0 <= i <= |s| && s != []
    requires forall k :: 0 <= k < i ==> s[k].id < t.id
    requires i < |s| ==> s[i].id > t.id
    requires s[0].id <= t.id <= s[|s| - 1].id
    ensures 0 < i < |s| && t.id !in Ids(s)
    ensures s[i - 1].id < t.id < s[i].id
  {
    assert !(s[|s| - 1].id < t.id);
    forall k | 0 <= k < |s| ensures s[k].id != t.id {
      if k >= i && k > i { assert s[i].id < s[k].id; }
    }
  }

  /** Inserting a trade at a slot whose neighbours have a smaller and a larger
    * id keeps the queue in id order and its ends in place. */
  lemma InsertInside(s: seq<Tick>, i: int, t: Tick)
    requires IdOrdered(s) && 0 < i < |s|
    requires s[i - 1].id < t.id < s[i].id
    ensures IdOrdered(s[..i] + [t] + s[i..])
    ensures (s[..i] + [t] + s[i..])[0] == s[0]
    ensures (s[..i] + [t] + s[i..])[|s|] == s[|s| - 1]
  {
    var r := s[..i] + [t] + s[i..];
    assert forall p :: 0 <= p < i ==> r[p] == s[p];
    assert r[i] == t;
    assert forall p :: i < p < |r| ==> r[p] == s[p - 1];
    forall p, q | 0 <= p < q < |r| ensures r[p].id < r[q].id {
      if q < i {
        assert s[p].id < s[q].id;
      } else if p > i {
        assert s[p - 1].id < s[q - 1].id;
      } else if p == i {
        if q - 1 > i { assert s[i].id < s[q - 1].id; }
      } else if q == i {
        if p < i - 1 { assert s[p].id < s[i - 1].id; }
      } else {
        assert s[p].id < s[q - 1].id;
      }
    }
  }

  /** Inserting adds exactly the one trade. */
  lemma InsertCounts(s: seq<Tick>, i: int, t: Tick)
    requires 0 <= i <= |s|
    ensures multiset(s[..i] + [t] + s[i..]) == multiset(s) + multiset{t}
  {
    assert s == s[..i] + s[i..];
  }

  /** A trade with an id below the front keeps the queue ordered, and a run
    * when it is exactly one below. */
  lemma ConsKeepsOrder(t: Tick, s: seq<Tick>)
    requires IdOrdered(s) && s != [] && t.id < s[0].id
    ensures IdOrdered([t] + s)
    ensures IdRun(s) && t.id == s[0].id - 1 ==> IdRun([t] + s)
  {
    var r := [t] + s;
    assert forall k :: 0 < k < |r| ==> r[k] == s[k - 1];
    forall p, q | 0 <= p < q < |r| ensures r[p].id < r[q].id {
      if p > 0 { assert s[p - 1].id < s[q - 1].id; }
      else if q > 1 { assert s[0].id < s[q - 1].id; }
    }
  }

  /** A trade with an id above the back keeps the queue ordered, and a run
    * when it is exactly one above. */
  lemma SnocKeepsOrder(s: seq<Tick>, t: Tick)
    requires IdOrdered(s) && s != [] && t.id > s[|s| - 1].id
    ensures IdOrdered(s + [t])
    ensures IdRun(s) && t.id == s[|s| - 1].id + 1 ==> IdRun(s + [t])
  {
    var r := s + [t];
    assert forall k :: 0 <= k < |s| ==> r[k] == s[k];
    forall p, q | 0 <= p < q < |r| ensures r[p].id < r[q].id {
      if q < |s| { assert s[p].id < s[q].id; }
      else if p < |s| - 1 { assert s[p].id < s[|s| - 1].id; }
    }
  }

  /** An id below the first or above the last of an ordered queue is not in it. */
  lemma NotInOrdered(s: seq<Tick>, id: int)
    requires IdOrdered(s) && s != []
    requires id < s[0].id || id > s[|s| - 1].id
    ensures id !in Ids(s)
  {
    forall k | 0 <= k < |s| ensures s[k].id != id {
      if 0 < k { assert s[0].id < s[k].id; }
      if k < |s| - 1 { assert s[k].id < s[|s| - 1].id; }
    }
  }

  /** In consecutive mode every id between the first and the last is present. */
  lemma RunHasEveryId(p: seq<Tick>, id: int)
    requires IdOrdered(p) && IdRun(p) && p != []
    requires p[0].id <= id <= p[|p| - 1].id
    ensures id in Ids(p)
  {
    assert Ids(p)[id - p[0].id] == id;
  }

  // ---- timestamp repair ----

  /** Each timestamp is at most the next one. */
  predicate SortedInts(s: seq<int>)
  {
    forall i :: 0 < i < |s| ==> s[i - 1] <= s[i]
  }

  /** Sorted neighbour by neighbour means sorted pair by pair. */
  lemma {:induction false} SortedPairwise(s: seq<int>)
    requires SortedInts(s)
    ensures forall i, j :: 0 <= i < j < |s| ==> s[i] <= s[j]
  {
    if |s| > 1 {
      SortedPairwise(s[1..]);
      forall i, j | 0 <= i < j < |s| ensures s[i] <= s[j] {
        if i > 0 {
          assert s[i] == s[1..][i - 1] && s[j] == s[1..][j - 1];
        } else if j > 1 {
          assert s[1] == s[1..][0] && s[j] == s[1..][j - 1];
        }
      }
    }
  }

  /** Inserts `x` before the first larger element of a sorted sequence. */
  function InsertSorted(x: int, s: seq<int>): seq<int>
  {
    if s == [] || x <= s[0] then [x] + s else [s[0]] + InsertSorted(x, s[1..])
  }

  /** Insertion sort: the reference for the order the repaired timestamps take. */
  function SortInts(s: seq<int>): seq<int>
  {
    if s == [] then [] else InsertSorted(s[0], SortInts(s[1..]))
  }

  /** Insertion adds exactly the one element. */
  lemma {:induction false} InsertSortedCounts(x: int, s: seq<int>)
    ensures multiset(InsertSorted(x, s)) == multiset(s) + multiset{x}
    ensures |InsertSorted(x, s)| == |s| + 1
  {
    if s != [] && x > s[0] {
      InsertSortedCounts(x, s[1..]);
      assert s == [s[0]] + s[1..];
    }
  }

  /** Insertion into a sorted sequence keeps it sorted. */
  lemma {:induction false} InsertSortedIsSorted(x: int, s: seq<int>)
    requires SortedInts(s)
    ensures SortedInts(InsertSorted(x, s))
    ensures InsertSorted(x, s)[0] == (if s == [] || x <= s[0] then x else s[0])
  {
    if s != [] && x > s[0] {
      var t := s[1..];
      assert SortedInts(t) by {
        forall i | 0 < i < |t| ensures t[i - 1] <= t[i] {
          assert t[i - 1] == s[i] && t[i] == s[i + 1];
        }
      }
      InsertSortedIsSorted(x, t);
      var r := InsertSorted(x, t);
      assert InsertSorted(x, s) == [s[0]] + r;
      assert s[0] <= r[0] by {
        if t != [] { assert t[0] == s[1]; }
      }
    }
  }

  /** The reference sort yields a sorted permutation of its input. */
  lemma {:induction false} SortIntsIsSortedPermutation(s: seq<int>)
    ensures SortedInts(SortInts(s)) && multiset(SortInts(s)) == multiset(s) && |SortInts(s)| == |s|
  {
    if s != [] {
      SortIntsIsSortedPermutation(s[1..]);
      InsertSortedIsSorted(s[0], SortInts(s[1..]));
      InsertSortedCounts(s[0], SortInts(s[1..]));
      assert s == [s[0]] + s[1..];
    }
  }

  /**
   * `sFixTimestamps`: the trades keep their ids and their place, and take
   * the timestamps of the trades in sorted order, so that the timestamps
   * along the queue never decrease. (Sorting the trades by timestamp then
   * id and reading off the timestamps gives the sorted timestamps.)
   */
  method FixTimestamps(trades: array<Tick>)
    modifies trades
    ensures Ids(trades[..]) == Ids(old(trades[..]))
    ensures Timestamps(trades[..]) == SortInts(Timestamps(old(trades[..])))
  {
    var sorted := SortInts(Timestamps(trades[..]));
    SortIntsIsSortedPermutation(Timestamps(trades[..]));
    var idx := 0;
    while idx < trades.Length
      invariant 0 <= idx <= trades.Length
      invariant forall k :: 0 <= k < trades.Length ==> trades[k].id == old(trades[k].id)
      invariant forall k :: 0 <= k < idx ==> trades[k].timestamp == sorted[k]
    {
      trades[idx] := trades[idx].(timestamp := sorted[idx]);
      idx := idx + 1;
    }
  }

  /** After the repair the timestamps are non-decreasing and are the old ones rearranged. */
  lemma FixedTimestampsSorted(before: seq<Tick>, after: seq<Tick>)
    requires Ids(after) == Ids(before)
    requires Timestamps(after) == SortInts(Timestamps(before))
    ensures forall i, j :: 0 <= i < j < |after| ==> after[i].timestamp <= after[j].timestamp
    ensures multiset(Timestamps(after)) == multiset(Timestamps(before))
    ensures forall k :: 0 <= k < |after| ==> after[k].id == before[k].id
  {
    SortIntsIsSortedPermutation(Timestamps(before));
    SortedPairwise(Timestamps(after));
  }
}
