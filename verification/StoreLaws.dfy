/**
 What holds of the store of keys whatever the creators answer, however
 contradictory the answers are.
 */
module StoreLaws {
  import opened Common
  import opened KeyStore

  /** What can happen to the store. */
  datatype Event =
    | Answered(url: Url, pem: Pem, start: Option<Minute>, end: Option<Minute>, now: Clock)
    | Cleared

  function Step(store: Store, event: Event): Store {
    match event
    case Answered(url, pem, start, end, now) => Hold(store, url, pem, start, end, now)
    case Cleared => EMPTY
  }

  function After(store: Store, events: seq<Event>): Store
    decreases events
  {
    if events == [] then store else After(Step(store, events[0]), events[1..])
  }

  /** One end point's keys: real spans, disjoint from each other, a PEM held once. */
  ghost predicate Orderly(keys: seq<Held>) {
    && (forall key <- keys :: key.first <= key.last && !(key.explicit && key.openEnded))
    && (forall i, j :: 0 <= i < |keys| && 0 <= j < |keys| && i != j ==>
          keys[i].pem != keys[j].pem && !keys[i].Meets(keys[j].first, keys[j].last))
  }

  ghost function Places(cache: map<EndPoint, seq<Held>>): set<(EndPoint, int)> {
    set endPoint, i | endPoint in cache && 0 <= i < |cache[endPoint]| :: (endPoint, i)
  }

  /** The count kept is the number of keys held, and it stays within the bound. */
  ghost predicate Sound(store: Store) {
    && (forall endPoint <- store.cache :: Orderly(store.cache[endPoint]))
    && store.heldKeys == |Places(store.cache)| <= MAXIMUM_CACHED_KEYS
  }

  lemma WideningKeepsOrder(keys: seq<Held>, offer: Held)
    requires Orderly(keys) && offer.first <= offer.last
    requires Dispose(keys, offer).Widens?
    ensures var i := Dispose(keys, offer).at; Orderly(keys[i := Widened(keys[i], offer)])
  {
    var i := Dispose(keys, offer).at;
    var wide := keys[i := Widened(keys[i], offer)];
    forall key | key in wide
      ensures key.first <= key.last && !(key.explicit && key.openEnded)
    {
      var j :| 0 <= j < |wide| && wide[j] == key;
      assert keys[j] in keys && keys[i] in keys;
    }
    assert ClearOfOthers(keys, i, wide[i].first, wide[i].last);
    forall a, b | 0 <= a < |wide| && 0 <= b < |wide| && a != b
      ensures wide[a].pem != wide[b].pem && !wide[a].Meets(wide[b].first, wide[b].last)
    {
      assert keys[a].pem != keys[b].pem;
      assert a != i ==> !keys[a].Meets(wide[i].first, wide[i].last);
      assert b != i ==> !keys[b].Meets(wide[i].first, wide[i].last);
    }
  }

  lemma AddingKeepsOrder(keys: seq<Held>, offer: Held)
    requires Orderly(keys) && offer.first <= offer.last && !(offer.explicit && offer.openEnded)
    requires Dispose(keys, offer).Adds?
    ensures Orderly(keys + [offer])
  {
    assert ClearOfOthers(keys, |keys|, offer.first, offer.last);
  }

  lemma PlaceKeepsOrder(store: Store, endPoint: EndPoint, offer: Held)
    requires Sound(store) && offer.first <= offer.last && !(offer.explicit && offer.openEnded)
    ensures var cache := Place(store, endPoint, offer).cache; forall e <- cache :: Orderly(cache[e])
  {
    var keys := store.Keys(endPoint);
    match Dispose(keys, offer)
    case Refused =>
    case Widens(i) => WideningKeepsOrder(keys, offer);
    case Adds => AddingKeepsOrder(keys, offer);
  }

  lemma PlacesWithOneMore(cache: map<EndPoint, seq<Held>>, endPoint: EndPoint, keys: seq<Held>, key: Held)
    requires keys == if endPoint in cache then cache[endPoint] else []
    ensures Places(cache[endPoint := keys + [key]]) == Places(cache) + {(endPoint, |keys|)}
    ensures |Places(cache[endPoint := keys + [key]])| == |Places(cache)| + 1
  {
    var after := cache[endPoint := keys + [key]];
    assert forall e, i :: (e, i) in Places(after) <==> (e, i) in Places(cache) || (e, i) == (endPoint, |keys|);
  }

  lemma PlacesWithOneChanged(cache: map<EndPoint, seq<Held>>, endPoint: EndPoint, keys: seq<Held>)
    requires endPoint in cache && |keys| == |cache[endPoint]|
    ensures Places(cache[endPoint := keys]) == Places(cache)
  {
  }

  lemma PlacesOfOne(endPoint: EndPoint, key: Held)
    ensures |Places(map[endPoint := [key]])| == 1
  {
    assert Places(map[endPoint := [key]]) == {(endPoint, 0)};
  }

  lemma PlaceKeepsCount(store: Store, endPoint: EndPoint, offer: Held)
    requires Sound(store)
    ensures var after := Place(store, endPoint, offer); after.heldKeys == |Places(after.cache)| <= MAXIMUM_CACHED_KEYS
  {
    var keys := store.Keys(endPoint);
    match Dispose(keys, offer)
    case Refused =>
    case Widens(i) => PlacesWithOneChanged(store.cache, endPoint, keys[i := Widened(keys[i], offer)]);
    case Adds =>
      PlacesWithOneMore(store.cache, endPoint, keys, offer);
      PlacesOfOne(endPoint, offer);
  }

  lemma {:induction false} StoreStaysSound(store: Store, events: seq<Event>)
    requires Sound(store)
    ensures Sound(After(store, events))
    decreases events
  {
    if events != [] {
      var after := Step(store, events[0]);
      match events[0] {
        case Cleared =>
          assert Places(EMPTY.cache) == {};
        case Answered(url, pem, start, end, now) =>
          var offer := Offer(url, pem, start, end, now);
          if offer.Some? {
            PlaceKeepsOrder(store, url.endPoint, offer.value);
            PlaceKeepsCount(store, url.endPoint, offer.value);
          }
      }
      StoreStaysSound(after, events[1..]);
    }
  }

  /** From the empty store, no run of answers and clears leaves the store unsound. */
  lemma StoreIsAlwaysSound(events: seq<Event>)
    ensures Sound(After(EMPTY, events)) && After(EMPTY, events).heldKeys <= 1024
  {
    assert Places(EMPTY.cache) == {};
    StoreStaysSound(EMPTY, events);
  }

  // ------------------------------------------------------------------ hits

  /** In an orderly list the key serving a minute is the only one covering it. */
  lemma OneKeyCovers(keys: seq<Held>, minute: Minute, a: Held, b: Held)
    requires Orderly(keys) && a in keys && b in keys && a.Covers(minute) && b.Covers(minute)
    ensures a == b
  {
    var i :| 0 <= i < |keys| && keys[i] == a;
    var j :| 0 <= j < |keys| && keys[j] == b;
  }

  /** A lookup answers with the one key that serves the minute, wherever it stands. */
  lemma ServedFrom(keys: seq<Held>, minute: Minute, now: Clock, key: Held)
    requires Orderly(keys) && key in keys && Serves(key, minute, now)
    ensures FirstServing(keys, minute, now) == Some(key)
  {
    OneKeyCovers(keys, minute, key, FirstServing(keys, minute, now).value);
  }

  /** A hit does not depend on the order the keys were learned in. */
  lemma HitIgnoresOrder(keys: seq<Held>, others: seq<Held>, minute: Minute, now: Clock)
    requires Orderly(keys) && Orderly(others) && multiset(keys) == multiset(others)
    ensures FirstServing(keys, minute, now) == FirstServing(others, minute, now)
  {
    assert forall key :: key in keys <==> key in multiset(keys);
    assert forall key :: key in others <==> key in multiset(others);
    var found := FirstServing(keys, minute, now);
    if found.Some? {
      ServedFrom(others, minute, now, found.value);
    }
  }

  // ----------------------------------------------------------- attribution

  /** Whether recording the answer would empty a full store. */
  predicate Overflows(store: Store, event: Event) {
    && event.Answered?
    && var offer := Offer(event.url, event.pem, event.start, event.end, event.now);
    && offer.Some?
    && Dispose(store.Keys(event.url.endPoint), offer.value).Adds?
    && store.heldKeys >= MAXIMUM_CACHED_KEYS
  }

  predicate NeverEmptied(store: Store, events: seq<Event>)
    decreases events
  {
    events == [] || (
      && events[0].Answered? && !Overflows(store, events[0])
      && NeverEmptied(Step(store, events[0]), events[1..]))
  }

  /** The later key is the earlier one with no less known about it. */
  ghost predicate Grown(earlier: Held, later: Held) {
    && later.pem == earlier.pem
    && later.first <= earlier.first && earlier.last <= later.last
    && (earlier.explicit ==> later.explicit)
    && (earlier.openEnded ==> later.openEnded || later.explicit)
  }

  lemma {:induction false} KeysOnlyGrow(store: Store, events: seq<Event>, endPoint: EndPoint, key: Held)
    returns (later: Held)
    requires NeverEmptied(store, events) && key in store.Keys(endPoint)
    ensures later in After(store, events).Keys(endPoint) && Grown(key, later)
    decreases events
  {
    if events == [] { return key; }
    var store' := Step(store, events[0]);
    var event := events[0];
    var offer := Offer(event.url, event.pem, event.start, event.end, event.now);
    var next := key;
    if offer.Some? && event.url.endPoint == endPoint {
      var keys, d := store.Keys(endPoint), Dispose(store.Keys(endPoint), offer.value);
      if d.Widens? && keys[d.at] == key {
        next := Widened(key, offer.value);
        assert store'.Keys(endPoint)[d.at] == next;
      } else {
        var i :| 0 <= i < |keys| && keys[i] == key;
        assert store'.Keys(endPoint)[i] == key;
      }
    }
    later := KeysOnlyGrow(store', events[1..], endPoint, next);
  }

  /**
   Once a lookup of a minute is served, every later lookup of that minute is
   served with the same key until the store is emptied, whatever is answered in
   between, and any span reported with it takes in the minute.
   */
  lemma AttributionIsStable(store: Store, events: seq<Event>, url: Url, now: Clock, later: Clock)
    requires Sound(store) && NeverEmptied(store, events) && now <= later
    requires HeldFor(store, url, now).Some?
    ensures var first, again := HeldFor(store, url, now), HeldFor(After(store, events), url, later);
      && again.Some? && again.value.pem == first.value.pem
      && (again.value.known ==> again.value.Covers(url.date.value))
  {
    var served := FirstServing(store.Keys(url.endPoint), url.date.value, now).value;
    var grown := KeysOnlyGrow(store, events, url.endPoint, served);
    StoreStaysSound(store, events);
    ServedFrom(After(store, events).Keys(url.endPoint), url.date.value, later, grown);
  }

  // ------------------------------------------------- what an answer is good for

  /** The minutes a fresh answer lets a later lookup be served without a request. */
  predicate Saves(url: Url, start: Option<Minute>, end: Option<Minute>, now: Clock, minute: Minute, later: Clock) {
    if start.Some? && end.Some? && start.value < end.value then start.value <= minute < end.value
    else if minute > later - CLOCK_DRIFT_ALLOWANCE_MINUTES then false
    else if start.Some? then
      minute == start.value || start.value <= minute <= now - CLOCK_DRIFT_ALLOWANCE_MINUTES
    else url.date == Some(minute) && minute <= now - CLOCK_DRIFT_ALLOWANCE_MINUTES
  }

  /**
   What one answer is worth. Where nothing was held for the end point, a lookup is
   served exactly for the minutes the answer saves, and then it reports just what
   the request itself reported.
   */
  lemma AnswerIsServedAgain(store: Store, url: Url, pem: Pem, start: Option<Minute>, end: Option<Minute>, now: Clock,
                            minute: Minute, later: Clock)
    requires store.Keys(url.endPoint) == []
    ensures HeldFor(Hold(store, url, pem, start, end, now), Url(url.endPoint, Some(minute)), later)
            == if Saves(url, start, end, now, minute, later) then Some(Stated(pem, start, end)) else None
  {
    var offer := Offer(url, pem, start, end, now);
    var after := Hold(store, url, pem, start, end, now);
    if offer.Some? {
      assert Dispose([], offer.value) == Adds;
      assert [] + [offer.value] == [offer.value];
      assert after.Keys(url.endPoint) == [offer.value];
      assert FirstServing([offer.value][1..], minute, later) == None;
    }
  }

  /** A kept offer serves its minutes whatever else is held for the end point. */
  lemma KeptOfferServes(store: Store, endPoint: EndPoint, offer: Held, minute: Minute, later: Clock)
    requires Sound(store) && offer.first <= offer.last && !(offer.explicit && offer.openEnded)
    requires Dispose(store.Keys(endPoint), offer) != Refused && Serves(offer, minute, later)
    ensures var hit := HeldFor(Place(store, endPoint, offer), Url(endPoint, Some(minute)), later);
      hit.Some? && hit.value.pem == offer.pem
  {
    var keys := store.Keys(endPoint);
    var after := Place(store, endPoint, offer).Keys(endPoint);
    PlaceKeepsOrder(store, endPoint, offer);
    var d := Dispose(keys, offer);
    if d.Widens? {
      assert after[d.at] == Widened(keys[d.at], offer);
      ServedFrom(after, minute, later, after[d.at]);
    } else {
      assert after[|after| - 1] == offer;
      ServedFrom(after, minute, later, offer);
    }
  }

  /** What a span states: nothing, a start with no end, or both ends. */
  predicate States(key: Held) {
    key.explicit || key.openEnded
  }

  /** Whether a hit passes the whole of what an offer states on. */
  predicate Reports(answer: Answer, offer: Held) {
    && answer.pem == offer.pem
    && (States(offer) ==> answer.known && answer.first <= offer.first)
    && (offer.explicit ==> offer.last <= answer.last)
    && (offer.openEnded ==> offer.last <= answer.last)
  }

  /**
   A statement is reported. A hit after a kept offer reports a span exactly where the
   offer or what was held of its key stated one, and no less of a span than the offer
   stated; one stated with no end, of a key no end was stated of, has none.
   */
  lemma KeptStatementIsReported(store: Store, endPoint: EndPoint, offer: Held, minute: Minute, later: Clock)
    requires Sound(store) && offer.first <= offer.last && !(offer.explicit && offer.openEnded)
    requires Dispose(store.Keys(endPoint), offer) != Refused && Serves(offer, minute, later)
    ensures var keys := store.Keys(endPoint);
      var hit := HeldFor(Place(store, endPoint, offer), Url(endPoint, Some(minute)), later);
      && hit.Some? && Reports(hit.value, offer)
      && (hit.value.known <==> States(offer) || exists key <- keys :: key.pem == offer.pem && States(key))
      && (offer.openEnded && (forall key <- keys :: key.pem == offer.pem ==> !key.explicit) ==>
            hit.value.last == LAST_MINUTE)
  {
    var keys := store.Keys(endPoint);
    var after := Place(store, endPoint, offer).Keys(endPoint);
    PlaceKeepsOrder(store, endPoint, offer);
    var d := Dispose(keys, offer);
    if d.Widens? {
      var held := keys[d.at];
      assert held in keys && forall key <- keys :: key.pem == offer.pem ==> key == held by {
        OneKeyHasIt(keys, held);
      }
      assert after[d.at] == Widened(held, offer);
      ServedFrom(after, minute, later, after[d.at]);
    } else {
      NoneHasIt(keys, offer);
      assert after[|after| - 1] == offer;
      ServedFrom(after, minute, later, offer);
    }
  }

  lemma OneKeyHasIt(keys: seq<Held>, held: Held)
    requires Orderly(keys) && held in keys
    ensures forall key <- keys :: key.pem == held.pem ==> key == held
  {
    var i :| 0 <= i < |keys| && keys[i] == held;
    forall key | key in keys && key.pem == held.pem
      ensures key == held
    {
      var j :| 0 <= j < |keys| && keys[j] == key;
    }
  }

  lemma NoneHasIt(keys: seq<Held>, offer: Held)
    requires Dispose(keys, offer).Adds?
    ensures forall key <- keys :: key.pem != offer.pem
  {
    forall key | key in keys
      ensures key.pem != offer.pem
    {
      var j :| 0 <= j < |keys| && keys[j] == key;
    }
  }

  /** Every other key of the list lies wholly before these minutes or wholly after. */
  ghost predicate NoOtherWithin(keys: seq<Held>, pem: Pem, lo: Minute, hi: Minute) {
    forall key <- keys :: key.pem != pem ==> key.last < lo || hi < key.first
  }

  /**
   Which offers are kept. A new key's is added, and a known key's widens it, exactly
   where no other key of the end point shares a minute with the span it would have.
   */
  lemma KeptExactly(keys: seq<Held>, offer: Held)
    requires Orderly(keys)
    ensures Dispose(keys, offer) == Adds <==>
      && (forall key <- keys :: key.pem != offer.pem) && NoOtherWithin(keys, offer.pem, offer.first, offer.last)
    ensures forall held <- keys :: held.pem == offer.pem ==>
      (Dispose(keys, offer).Widens? <==>
        NoOtherWithin(keys, offer.pem, Min(offer.first, held.first), Max(offer.last, held.last)))
    ensures Dispose(keys, offer).Widens? ==> exists held <- keys :: held.pem == offer.pem
  {
    var i := IndexOf(keys, offer.pem);
    if i < |keys| {
      OneKeyHasIt(keys, keys[i]);
      OthersApart(keys, i, offer.pem, Min(offer.first, keys[i].first), Max(offer.last, keys[i].last));
      assert keys[i] in keys;
    } else {
      OthersApart(keys, i, offer.pem, offer.first, offer.last);
      assert forall key <- keys :: key.pem != offer.pem;
    }
  }

  lemma OthersApart(keys: seq<Held>, own: nat, pem: Pem, lo: Minute, hi: Minute)
    requires Orderly(keys) && own <= |keys| && (own < |keys| ==> keys[own].pem == pem)
    requires own == |keys| ==> forall i :: 0 <= i < |keys| ==> keys[i].pem != pem
    ensures ClearOfOthers(keys, own, lo, hi) <==> NoOtherWithin(keys, pem, lo, hi)
  {
    if ClearOfOthers(keys, own, lo, hi) {
      forall key | key in keys && key.pem != pem
        ensures key.last < lo || hi < key.first
      {
        var j :| 0 <= j < |keys| && keys[j] == key;
        assert !keys[j].Meets(lo, hi);
      }
    }
    if NoOtherWithin(keys, pem, lo, hi) {
      forall j | 0 <= j < |keys| && j != own
        ensures !keys[j].Meets(lo, hi)
      {
        assert keys[j] in keys;
      }
    }
  }

  // ----------------------------------------------------------------- asking

  /**
   What asking for a key does, by what is held and what is under way. A key that
   serves the minute is answered with and nothing is requested; else the request
   running for the URL is joined; and only with neither is one led.
   */
  lemma AskMeans(store: Store, inFlight: map<Url, FutureId>, url: Url, now: Clock, unused: FutureId)
    ensures var asked := Ask(store, inFlight, url, now, unused);
      && (asked.Hit? <==> url.date.Some? && exists key <- store.Keys(url.endPoint) :: Serves(key, url.date.value, now))
      && (asked.Hit? ==> exists key <- store.Keys(url.endPoint) ::
            Serves(key, url.date.value, now) && asked.answer.pem == key.pem
            && (asked.answer.known <==> States(key)) && (States(key) ==> asked.answer.first == key.first)
            && (States(key) ==> asked.answer.last == if key.explicit then key.last else LAST_MINUTE))
      && (asked.Joins? ==> url in inFlight && asked.shared == inFlight[url])
      && (asked.Leads? ==> url !in inFlight && asked.shared == unused)
  {
    if url.date.Some? {
      var found := FirstServing(store.Keys(url.endPoint), url.date.value, now);
      if found.Some? { assert StatedFor(found.value).known <==> States(found.value); }
    }
  }
}
