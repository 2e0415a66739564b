/** The keys a creator has published and the rule that picks the key in force. */
module Schedule {
  import opened Common

  /** Microseconds since 2020-01-01 00:00 UTC, which is what a datetime counts. */
  type Moment = int

  datatype DatedKey = DatedKey(startsAt: Moment, pem: Pem)

  // ------------------------------------------------------------- the rule

  /** Of the keys started by the moment the latest, and the first supplied among ties. */
  ghost predicate IsInForce(keys: seq<DatedKey>, at: Moment, i: nat) {
    && i < |keys| && keys[i].startsAt <= at
    && forall j :: 0 <= j < |keys| && keys[j].startsAt <= at ==>
         keys[j].startsAt < keys[i].startsAt || (keys[j].startsAt == keys[i].startsAt && i <= j)
  }

  function InForce(keys: seq<DatedKey>, at: Moment): Option<DatedKey> {
    if keys == [] then None
    else
      var rest := InForce(keys[1..], at);
      if keys[0].startsAt <= at && (rest.None? || rest.value.startsAt <= keys[0].startsAt) then Some(keys[0])
      else rest
  }

  lemma {:induction false} InForceIsLatest(keys: seq<DatedKey>, at: Moment) returns (i: nat)
    ensures InForce(keys, at).None? <==> forall key <- keys :: key.startsAt > at
    ensures InForce(keys, at).Some? ==> IsInForce(keys, at, i) && InForce(keys, at) == Some(keys[i])
  {
    i := 0;
    if keys != [] {
      var j := InForceIsLatest(keys[1..], at);
      assert forall key <- keys :: key == keys[0] || key in keys[1..];
      assert forall n | 1 <= n < |keys| :: keys[n] == keys[1..][n - 1];
      var rest := InForce(keys[1..], at);
      var first := keys[0].startsAt <= at && (rest.None? || rest.value.startsAt <= keys[0].startsAt);
      i := if first then 0 else j + 1;
    }
  }

  lemma OnlyOneIsInForce(keys: seq<DatedKey>, at: Moment, i: nat)
    requires IsInForce(keys, at, i)
    ensures InForce(keys, at) == Some(keys[i])
  {
    var j := InForceIsLatest(keys, at);
    assert keys[i] in keys;
  }

  /** With distinct starts the order of supply does not matter. */
  lemma SupplyOrderDoesNotMatter(keys: seq<DatedKey>, others: seq<DatedKey>, at: Moment)
    requires multiset(keys) == multiset(others)
    requires forall i, j :: 0 <= i < j < |keys| ==> keys[i].startsAt != keys[j].startsAt
    ensures InForce(keys, at) == InForce(others, at)
  {
    assert forall key :: key in keys <==> key in multiset(keys);
    assert forall key :: key in others <==> key in multiset(others);
    var i := InForceIsLatest(keys, at);
    var j := InForceIsLatest(others, at);
    if InForce(keys, at).Some? {
      assert keys[i] in others && others[j] in keys;
      assert keys[i].startsAt == others[j].startsAt;
    }
  }

  // ------------------------------------------------------------- the sort

  ghost predicate Ascending(keys: seq<DatedKey>) {
    forall i, j :: 0 <= i < j < |keys| ==> keys[i].startsAt <= keys[j].startsAt
  }

  function Insert(key: DatedKey, sorted: seq<DatedKey>): seq<DatedKey> {
    if sorted == [] || key.startsAt <= sorted[0].startsAt then [key] + sorted
    else [sorted[0]] + Insert(key, sorted[1..])
  }

  /** The library's stable sort by start. */
  function StableSort(keys: seq<DatedKey>): seq<DatedKey> {
    if keys == [] then [] else Insert(keys[0], StableSort(keys[1..]))
  }

  /** The keys of one start, in the order they stand. */
  function WithStart(keys: seq<DatedKey>, start: Moment): seq<DatedKey> {
    if keys == [] then []
    else (if keys[0].startsAt == start then [keys[0]] else []) + WithStart(keys[1..], start)
  }

  lemma {:induction false} InsertKeepsAll(key: DatedKey, sorted: seq<DatedKey>)
    ensures multiset(Insert(key, sorted)) == multiset(sorted) + multiset{key}
  {
    if sorted != [] && key.startsAt > sorted[0].startsAt {
      InsertKeepsAll(key, sorted[1..]);
      assert sorted == [sorted[0]] + sorted[1..];
    }
  }

  lemma AscendingInFront(first: DatedKey, rest: seq<DatedKey>)
    requires Ascending(rest) && forall other <- rest :: first.startsAt <= other.startsAt
    ensures Ascending([first] + rest)
  {
  }

  lemma {:induction false} InsertSorts(key: DatedKey, sorted: seq<DatedKey>)
    requires Ascending(sorted)
    ensures Ascending(Insert(key, sorted))
  {
    if sorted != [] && key.startsAt > sorted[0].startsAt {
      var rest := Insert(key, sorted[1..]);
      InsertSorts(key, sorted[1..]);
      InsertKeepsAll(key, sorted[1..]);
      forall other | other in rest
        ensures sorted[0].startsAt <= other.startsAt
      {
        assert other in multiset(rest);
        assert other == key || other in sorted[1..];
      }
      AscendingInFront(sorted[0], rest);
    }
  }

  lemma {:induction false} InsertIsStable(key: DatedKey, sorted: seq<DatedKey>, start: Moment)
    requires Ascending(sorted)
    ensures WithStart(Insert(key, sorted), start) == WithStart([key] + sorted, start)
  {
    assert ([key] + sorted)[1..] == sorted;
    if sorted != [] && key.startsAt > sorted[0].startsAt {
      InsertIsStable(key, sorted[1..], start);
      assert ([key] + sorted[1..])[1..] == sorted[1..];
      assert Insert(key, sorted)[1..] == Insert(key, sorted[1..]);
    }
  }

  /** The sort orders the keys by start, keeps them all, and keeps ties in order. */
  lemma {:induction false} SortIsStable(keys: seq<DatedKey>, start: Moment)
    ensures Ascending(StableSort(keys)) && multiset(StableSort(keys)) == multiset(keys)
    ensures WithStart(StableSort(keys), start) == WithStart(keys, start)
  {
    if keys != [] {
      SortIsStable(keys[1..], start);
      InsertSorts(keys[0], StableSort(keys[1..]));
      InsertKeepsAll(keys[0], StableSort(keys[1..]));
      InsertIsStable(keys[0], StableSort(keys[1..]), start);
      assert keys == [keys[0]] + keys[1..];
    }
  }

  predicate Apart(a: DatedKey, b: DatedKey) {
    a.startsAt != b.startsAt && a.pem != b.pem
  }

  /** One key for a start, and one start for a key. */
  ghost predicate Distinct(keys: seq<DatedKey>) {
    forall i, j :: 0 <= i < j < |keys| ==> Apart(keys[i], keys[j])
  }

  lemma {:induction false} InsertKeepsDistinct(key: DatedKey, sorted: seq<DatedKey>)
    requires Distinct(sorted) && forall other <- sorted :: Apart(key, other)
    ensures Distinct(Insert(key, sorted))
  {
    if sorted != [] && key.startsAt > sorted[0].startsAt {
      var rest := Insert(key, sorted[1..]);
      InsertKeepsDistinct(key, sorted[1..]);
      InsertKeepsAll(key, sorted[1..]);
      forall other | other in rest
        ensures Apart(sorted[0], other)
      {
        assert other in multiset(rest) && sorted[0] in sorted;
        if other != key {
          var j :| 0 <= j < |sorted[1..]| && sorted[1..][j] == other;
          assert Apart(sorted[0], sorted[j + 1]);
        }
      }
    }
  }

  /** Sorting keeps distinct keys distinct. */
  lemma {:induction false} SortKeepsDistinct(keys: seq<DatedKey>)
    requires Distinct(keys)
    ensures Distinct(StableSort(keys))
  {
    if keys != [] {
      SortKeepsDistinct(keys[1..]);
      SortIsStable(keys[1..], 0);
      assert forall other :: other in StableSort(keys[1..]) <==> other in multiset(keys[1..]);
      InsertKeepsDistinct(keys[0], StableSort(keys[1..]));
    }
  }

  lemma {:induction false} InsertKeepsInForce(key: DatedKey, sorted: seq<DatedKey>, at: Moment)
    requires Ascending(sorted)
    ensures InForce(Insert(key, sorted), at) == InForce([key] + sorted, at)
  {
    assert ([key] + sorted)[1..] == sorted;
    if sorted != [] && key.startsAt > sorted[0].startsAt {
      InsertKeepsInForce(key, sorted[1..], at);
      assert ([key] + sorted[1..])[1..] == sorted[1..];
      assert Insert(key, sorted)[1..] == Insert(key, sorted[1..]);
    }
  }

  /** Selecting from the sorted keys is selecting from the keys as supplied. */
  lemma {:induction false} SortingKeepsInForce(keys: seq<DatedKey>, at: Moment)
    ensures InForce(StableSort(keys), at) == InForce(keys, at)
  {
    if keys != [] {
      SortingKeepsInForce(keys[1..], at);
      SortIsStable(keys[1..], 0);
      InsertKeepsInForce(keys[0], StableSort(keys[1..]), at);
      assert ([keys[0]] + StableSort(keys[1..]))[1..] == StableSort(keys[1..]);
    }
  }

  // --------------------------------------------------------- the next start

  /** The earliest start after the one given. */
  function NextStartAfter(keys: seq<DatedKey>, start: Moment): (next: Option<Moment>)
    ensures next.None? ==> forall key <- keys :: key.startsAt <= start
    ensures next.Some? ==>
      && start < next.value && (exists key <- keys :: key.startsAt == next.value)
      && (forall key <- keys :: key.startsAt > start ==> next.value <= key.startsAt)
  {
    if keys == [] then None
    else
      var rest := NextStartAfter(keys[1..], start);
      assert forall key <- keys :: key == keys[0] || key in keys[1..];
      assert keys[0] in keys;
      if keys[0].startsAt > start && (rest.None? || keys[0].startsAt <= rest.value) then Some(keys[0].startsAt)
      else rest
  }

  /**
   The periods divide up every moment from the earliest start on. A key with this
   start is in force exactly from the start until the next start there is.
   */
  lemma PeriodsPartitionTime(keys: seq<DatedKey>, key: DatedKey, at: Moment)
    requires key in keys
    ensures var chosen, next := InForce(keys, at), NextStartAfter(keys, key.startsAt);
      (chosen.Some? && chosen.value.startsAt == key.startsAt)
        <==> (key.startsAt <= at && (next.Some? ==> at < next.value))
    ensures key.startsAt <= at ==> InForce(keys, at).Some?
  {
    var i := InForceIsLatest(keys, at);
    var next := NextStartAfter(keys, key.startsAt);
    var j :| 0 <= j < |keys| && keys[j] == key;
    if next.Some? {
      var n :| 0 <= n < |keys| && keys[n].startsAt == next.value;
    }
    if InForce(keys, at).Some? { assert keys[i] in keys; }
  }

  // ------------------------------------------------------------ the schedule

  class PublicKeySchedule {
    const keys: seq<DatedKey>
    ghost const supplied: seq<DatedKey>

    ghost predicate Valid() {
      keys == StableSort(supplied)
    }

    constructor (supplied: seq<DatedKey>)
      ensures Valid() && this.supplied == supplied
    {
      keys := StableSort(supplied);
      this.supplied := supplied;
    }

    method KeyInForce(date: Option<Moment>) returns (key: Option<DatedKey>)
      requires Valid()
      ensures key == if date.None? then None else InForce(supplied, date.value)
    {
      if date.None? { return None; }
      SortIsStable(supplied, 0);
      SortingKeepsInForce(supplied, date.value);
      key := ScanBack(keys, date.value);
    }

    /** The backwards scan over the keys held. */
    static method ScanBack(keys: seq<DatedKey>, moment: Moment) returns (key: Option<DatedKey>)
      requires Ascending(keys)
      ensures key == InForce(keys, moment)
    {
      var index: int := |keys| - 1;
      while index >= 0
        invariant -1 <= index < |keys|
        invariant forall j :: index < j < |keys| ==> keys[j].startsAt > moment
      {
        var found := keys[index];
        if found.startsAt <= moment {
          while index > 0 && keys[index - 1].startsAt == found.startsAt
            invariant 0 <= index < |keys| && found == keys[index]
            invariant forall j :: 0 <= j < |keys| && keys[j].startsAt <= moment ==>
              keys[j].startsAt < found.startsAt || keys[j].startsAt == found.startsAt
          {
            index := index - 1;
            found := keys[index];
          }
          OnlyOneIsInForce(keys, moment, index);
          return Some(found);
        }
        index := index - 1;
      }
      ghost var latest := InForceIsLatest(keys, moment);
      return None;
    }
  }
}
