/** What the spans save: one request for each key whose period is asked about. */
module RequestBound {
  import opened Common
  import opened KeyStore
  import opened StoreLaws
  import opened Timeline

  /** A lookup at the end point: the minute it names and the verifier's clock. */
  datatype Lookup = Lookup(minute: Minute, now: Clock)

  /** What befalls the store: a lookup at the end point, or an answer from another. */
  datatype Item = Here(lookup: Lookup) | Elsewhere(event: Event)

  datatype Tally = Tally(store: Store, requests: nat)

  /** The minute falls in a period of which the creator states both ends. */
  ghost predicate InStatedPeriod(periods: seq<Period>, k: nat, minute: Minute) {
    && InForce(periods, k, minute) && k + 1 < |periods|
    && 0 <= periods[k].start && periods[k + 1].start <= LAST_MINUTE
  }

  ghost predicate HasStatedPeriod(periods: seq<Period>, minute: Minute) {
    exists k :: InStatedPeriod(periods, k, minute)
  }

  ghost predicate AllStated(periods: seq<Period>, items: seq<Item>) {
    forall i :: 0 <= i < |items| && items[i].Here? ==> HasStatedPeriod(periods, items[i].lookup.minute)
  }

  ghost function KeyAt(periods: seq<Period>, minute: Minute): (k: nat)
    requires HasStatedPeriod(periods, minute)
    ensures InStatedPeriod(periods, k, minute)
  {
    var k :| InStatedPeriod(periods, k, minute);
    k
  }

  /** The answer the creator gives to a lookup that reaches it. */
  ghost function AnswerTo(periods: seq<Period>, endPoint: EndPoint, lookup: Lookup): Event
    requires HasStatedPeriod(periods, lookup.minute)
  {
    var k := KeyAt(periods, lookup.minute);
    Answered(Url(endPoint, Some(lookup.minute)), periods[k].pem, Some(periods[k].start), Some(periods[k + 1].start),
             lookup.now)
  }

  predicate Misses(endPoint: EndPoint, store: Store, lookup: Lookup) {
    HeldFor(store, Url(endPoint, Some(lookup.minute)), lookup.now).None?
  }

  /** A lookup is answered from the store, or else by one request to the creator. */
  ghost function Took(periods: seq<Period>, endPoint: EndPoint, before: Tally, item: Item): Tally
    requires item.Here? ==> HasStatedPeriod(periods, item.lookup.minute)
  {
    match item
    case Elsewhere(event) => Tally(Step(before.store, event), before.requests)
    case Here(lookup) =>
      if Misses(endPoint, before.store, lookup)
      then Tally(Step(before.store, AnswerTo(periods, endPoint, lookup)), before.requests + 1)
      else before
  }

  ghost function InTurn(periods: seq<Period>, endPoint: EndPoint, store: Store, items: seq<Item>): Tally
    requires AllStated(periods, items)
  {
    if items == [] then Tally(store, 0)
    else Took(periods, endPoint, InTurn(periods, endPoint, store, items[..|items| - 1]), items[|items| - 1])
  }

  /** The item neither clears the store nor makes it overflow, and is no answer from
      this end point other than to the lookups counted. */
  ghost predicate Fits(periods: seq<Period>, endPoint: EndPoint, store: Store, item: Item)
    requires item.Here? ==> HasStatedPeriod(periods, item.lookup.minute)
  {
    match item
    case Elsewhere(event) => event.Answered? && event.url.endPoint != endPoint && !Overflows(store, event)
    case Here(lookup) => Misses(endPoint, store, lookup) ==> !Overflows(store, AnswerTo(periods, endPoint, lookup))
  }

  /** The store is never emptied along the run. */
  ghost predicate AllFit(periods: seq<Period>, endPoint: EndPoint, store: Store, items: seq<Item>)
    requires AllStated(periods, items)
  {
    var n := |items| - 1;
    items == [] || (
      && AllFit(periods, endPoint, store, items[..n])
      && Fits(periods, endPoint, InTurn(periods, endPoint, store, items[..n]).store, items[n]))
  }

  /** The keys whose periods were asked about. */
  ghost function KeysAsked(periods: seq<Period>, items: seq<Item>): (keys: set<nat>)
    requires AllStated(periods, items)
  {
    set i | 0 <= i < |items| && items[i].Here? :: KeyAt(periods, items[i].lookup.minute)
  }

  /** What an item adds to them. */
  ghost function AskedBy(periods: seq<Period>, item: Item): set<nat>
    requires item.Here? ==> HasStatedPeriod(periods, item.lookup.minute)
  {
    if item.Here? then {KeyAt(periods, item.lookup.minute)} else {}
  }

  /** A key held for its whole period, by the creator's own statement. */
  predicate IsWhole(periods: seq<Period>, k: nat, key: Held) {
    && k + 1 < |periods| && key.pem == periods[k].pem && key.explicit && !key.openEnded
    && key.first == periods[k].start && key.last == periods[k + 1].start - 1
  }

  ghost predicate HoldsWhole(periods: seq<Period>, keys: seq<Held>, k: nat) {
    exists i :: 0 <= i < |keys| && IsWhole(periods, k, keys[i])
  }

  ghost predicate WasAsked(periods: seq<Period>, asked: set<nat>, key: Held) {
    exists k <- asked :: IsWhole(periods, k, key)
  }

  ghost predicate KeysAre(periods: seq<Period>, asked: set<nat>, keys: seq<Held>) {
    && (forall k <- asked :: HoldsWhole(periods, keys, k))
    && (forall i :: 0 <= i < |keys| ==> WasAsked(periods, asked, keys[i]))
  }

  /** One request for each key asked about, and just those keys held here. */
  ghost predicate Keeps(periods: seq<Period>, endPoint: EndPoint, asked: set<nat>, tally: Tally) {
    && Sound(tally.store) && tally.requests == |asked|
    && KeysAre(periods, asked, tally.store.Keys(endPoint))
  }

  lemma AskedAgainIsServed(periods: seq<Period>, keys: seq<Held>, asked: set<nat>, k: nat, minute: Minute, now: Clock)
    requires Proper(periods) && Orderly(keys) && KeysAre(periods, asked, keys)
    requires InStatedPeriod(periods, k, minute)
    ensures FirstServing(keys, minute, now).Some? <==> k in asked
  {
    if k in asked {
      assert HoldsWhole(periods, keys, k);
      var i :| 0 <= i < |keys| && IsWhole(periods, k, keys[i]);
      ServedFrom(keys, minute, now, keys[i]);
    }
    var found := FirstServing(keys, minute, now);
    if found.Some? {
      var i :| 0 <= i < |keys| && keys[i] == found.value;
      assert WasAsked(periods, asked, keys[i]);
      var j :| j in asked && IsWhole(periods, j, found.value);
      OneInForce(periods, j, k, minute);
    }
  }

  lemma NewKeyStandsApart(periods: seq<Period>, keys: seq<Held>, asked: set<nat>, k: nat, key: Held)
    requires Proper(periods) && KeysAre(periods, asked, keys) && k !in asked && IsWhole(periods, k, key)
    ensures Dispose(keys, key) == Adds
  {
    PeriodStartsAscend(periods, k);
    forall n | 0 <= n < |keys|
      ensures keys[n].pem != key.pem && !keys[n].Meets(key.first, key.last)
    {
      assert WasAsked(periods, asked, keys[n]);
      var j :| j in asked && IsWhole(periods, j, keys[n]);
      PeriodStartsAscend(periods, j);
      PeriodsAreApart(periods, j, keys[n], k, key);
    }
  }

  lemma KeysAreWithOneMore(periods: seq<Period>, keys: seq<Held>, asked: set<nat>, k: nat, key: Held)
    requires KeysAre(periods, asked, keys) && IsWhole(periods, k, key)
    ensures KeysAre(periods, asked + {k}, keys + [key])
  {
    forall j | j in asked + {k}
      ensures HoldsWhole(periods, keys + [key], j)
    {
      if j in asked {
        assert HoldsWhole(periods, keys, j);
        var i :| 0 <= i < |keys| && IsWhole(periods, j, keys[i]);
        assert (keys + [key])[i] == keys[i];
      } else {
        assert (keys + [key])[|keys|] == key;
      }
    }
    forall i | 0 <= i < |keys| + 1
      ensures WasAsked(periods, asked + {k}, (keys + [key])[i])
    {
      if i < |keys| {
        assert WasAsked(periods, asked, keys[i]);
        var j :| j in asked && IsWhole(periods, j, keys[i]);
        assert j in asked + {k};
      } else {
        assert k in asked + {k};
      }
    }
  }

  lemma PeriodStartsAscend(periods: seq<Period>, k: nat)
    requires Proper(periods)
    ensures k + 1 < |periods| ==> periods[k].start < periods[k + 1].start
  {
  }

  /** The creator's answer offers its key for the whole period. */
  lemma AnswerIsWhole(periods: seq<Period>, endPoint: EndPoint, lookup: Lookup) returns (key: Held)
    requires Proper(periods) && HasStatedPeriod(periods, lookup.minute)
    ensures IsWhole(periods, KeyAt(periods, lookup.minute), key)
    ensures var event := AnswerTo(periods, endPoint, lookup);
      Offer(event.url, event.pem, event.start, event.end, event.now) == Some(key)
  {
    var k := KeyAt(periods, lookup.minute);
    PeriodStartsAscend(periods, k);
    key := Held(periods[k].pem, periods[k].start, periods[k + 1].start - 1, true, false);
  }

  /** The answer to a miss adds its key to those held, in a store with room for it. */
  lemma MissAddsKey(periods: seq<Period>, endPoint: EndPoint, asked: set<nat>, store: Store, lookup: Lookup)
    returns (key: Held)
    requires Proper(periods) && HasStatedPeriod(periods, lookup.minute)
    requires KeysAre(periods, asked, store.Keys(endPoint)) && KeyAt(periods, lookup.minute) !in asked
    requires !Overflows(store, AnswerTo(periods, endPoint, lookup))
    ensures IsWhole(periods, KeyAt(periods, lookup.minute), key)
    ensures var after := Step(store, AnswerTo(periods, endPoint, lookup));
      after.Keys(endPoint) == store.Keys(endPoint) + [key] && after.heldKeys == store.heldKeys + 1
  {
    key := AnswerIsWhole(periods, endPoint, lookup);
    NewKeyStandsApart(periods, store.Keys(endPoint), asked, KeyAt(periods, lookup.minute), key);
  }

  lemma StepIsSound(store: Store, event: Event)
    requires Sound(store)
    ensures Sound(Step(store, event))
  {
    StoreStaysSound(store, [event]);
    assert After(store, [event]) == Step(store, event);
  }

  lemma SoundIsOrderly(store: Store, endPoint: EndPoint)
    requires Sound(store)
    ensures Orderly(store.Keys(endPoint))
  {
  }

  /** A lookup reaches the creator exactly where its key was not asked about before. */
  lemma MissesWhatWasNotAsked(periods: seq<Period>, endPoint: EndPoint, asked: set<nat>, store: Store, lookup: Lookup)
    requires Proper(periods) && HasStatedPeriod(periods, lookup.minute)
    requires Orderly(store.Keys(endPoint)) && KeysAre(periods, asked, store.Keys(endPoint))
    ensures Misses(endPoint, store, lookup) <==> KeyAt(periods, lookup.minute) !in asked
  {
    var k := KeyAt(periods, lookup.minute);
    AskedAgainIsServed(periods, store.Keys(endPoint), asked, k, lookup.minute, lookup.now);
  }

  lemma MissKeepsKeys(periods: seq<Period>, endPoint: EndPoint, asked: set<nat>, store: Store, lookup: Lookup)
    requires Proper(periods) && HasStatedPeriod(periods, lookup.minute)
    requires KeysAre(periods, asked, store.Keys(endPoint)) && KeyAt(periods, lookup.minute) !in asked
    requires !Overflows(store, AnswerTo(periods, endPoint, lookup))
    ensures var after := Step(store, AnswerTo(periods, endPoint, lookup));
      KeysAre(periods, asked + {KeyAt(periods, lookup.minute)}, after.Keys(endPoint))
  {
    var key := MissAddsKey(periods, endPoint, asked, store, lookup);
    KeysAreWithOneMore(periods, store.Keys(endPoint), asked, KeyAt(periods, lookup.minute), key);
  }

  lemma ElsewhereKeepsKeys(endPoint: EndPoint, store: Store, event: Event)
    requires event.Answered? && event.url.endPoint != endPoint && !Overflows(store, event)
    ensures Step(store, event).Keys(endPoint) == store.Keys(endPoint)
  {
  }

  lemma TookIsSound(periods: seq<Period>, endPoint: EndPoint, before: Tally, item: Item)
    requires Sound(before.store) && (item.Here? ==> HasStatedPeriod(periods, item.lookup.minute))
    ensures Sound(Took(periods, endPoint, before, item).store)
  {
    match item
    case Elsewhere(event) => StepIsSound(before.store, event);
    case Here(lookup) => StepIsSound(before.store, AnswerTo(periods, endPoint, lookup));
  }

  /** What the item does to the keys held, and whether it costs a request. */
  lemma TookKeepsKeys(periods: seq<Period>, endPoint: EndPoint, asked: set<nat>, before: Tally, item: Item)
    requires Proper(periods) && (item.Here? ==> HasStatedPeriod(periods, item.lookup.minute))
    requires Orderly(before.store.Keys(endPoint)) && KeysAre(periods, asked, before.store.Keys(endPoint))
    requires Fits(periods, endPoint, before.store, item)
    ensures var after := Took(periods, endPoint, before, item);
      && KeysAre(periods, asked + AskedBy(periods, item), after.store.Keys(endPoint))
      && after.requests == before.requests + |AskedBy(periods, item) - asked|
  {
    match item
    case Elsewhere(event) =>
      ElsewhereKeepsKeys(endPoint, before.store, event);
      NothingNew(asked, {});
    case Here(lookup) =>
      MissesWhatWasNotAsked(periods, endPoint, asked, before.store, lookup);
      if Misses(endPoint, before.store, lookup) {
        MissKeepsKeys(periods, endPoint, asked, before.store, lookup);
        OneNew(asked, KeyAt(periods, lookup.minute));
      } else {
        NothingNew(asked, {KeyAt(periods, lookup.minute)});
      }
  }

  lemma NothingNew(a: set<nat>, b: set<nat>)
    requires b <= a
    ensures a + b == a && |b - a| == 0
  {
    assert b - a == {};
  }

  lemma OneNew(a: set<nat>, k: nat)
    requires k !in a
    ensures |{k} - a| == 1
  {
    assert {k} - a == {k};
  }

  lemma UnionCounts(a: set<nat>, b: set<nat>)
    ensures |a + b| == |a| + |b - a|
  {
    assert a + b == a + (b - a);
  }

  lemma TookKeeps(periods: seq<Period>, endPoint: EndPoint, asked: set<nat>, before: Tally, item: Item)
    requires Proper(periods) && (item.Here? ==> HasStatedPeriod(periods, item.lookup.minute))
    requires Keeps(periods, endPoint, asked, before) && Fits(periods, endPoint, before.store, item)
    ensures Keeps(periods, endPoint, asked + AskedBy(periods, item), Took(periods, endPoint, before, item))
  {
    SoundIsOrderly(before.store, endPoint);
    TookIsSound(periods, endPoint, before, item);
    TookKeepsKeys(periods, endPoint, asked, before, item);
    UnionCounts(asked, AskedBy(periods, item));
  }

  lemma NothingAsked(periods: seq<Period>, endPoint: EndPoint, store: Store)
    requires Sound(store) && store.Keys(endPoint) == []
    ensures KeysAsked(periods, []) == {}
    ensures Keeps(periods, endPoint, {}, Tally(store, 0))
  {
  }

  /**
   One request for each key. Lookups at an end point, among any answers from other
   end points, reach its creator exactly once for each key whose period they ask
   about, in whatever order and however often, as long as the store is never emptied.
   */
  lemma {:induction false} OneRequestForEachKey(periods: seq<Period>, endPoint: EndPoint, store: Store,
                                                items: seq<Item>)
    requires Proper(periods) && Sound(store) && store.Keys(endPoint) == []
    requires AllStated(periods, items) && AllFit(periods, endPoint, store, items)
    ensures InTurn(periods, endPoint, store, items).requests == |KeysAsked(periods, items)|
    ensures Keeps(periods, endPoint, KeysAsked(periods, items), InTurn(periods, endPoint, store, items))
    decreases items
  {
    if items == [] {
      NothingAsked(periods, endPoint, store);
    } else {
      var n := |items| - 1;
      OneRequestForEachKey(periods, endPoint, store, items[..n]);
      KeysAskedWithOneMore(periods, items);
      TookKeeps(periods, endPoint, KeysAsked(periods, items[..n]), InTurn(periods, endPoint, store, items[..n]),
                items[n]);
    }
  }

  lemma KeysAskedWithOneMore(periods: seq<Period>, items: seq<Item>)
    requires AllStated(periods, items) && items != []
    ensures var n := |items| - 1;
      KeysAsked(periods, items) == KeysAsked(periods, items[..n]) + AskedBy(periods, items[n])
  {
    var n := |items| - 1;
    forall k | k in KeysAsked(periods, items[..n])
      ensures k in KeysAsked(periods, items)
    {
      var i :| 0 <= i < n && items[..n][i].Here? && k == KeyAt(periods, items[..n][i].lookup.minute);
      assert items[..n][i] == items[i];
    }
    forall k | k in KeysAsked(periods, items)
      ensures k in KeysAsked(periods, items[..n]) || k in AskedBy(periods, items[n])
    {
      var i :| 0 <= i <= n && items[i].Here? && k == KeyAt(periods, items[i].lookup.minute);
      assert i < n ==> items[..n][i] == items[i];
    }
  }

  // ------------------------------------------------------- a verifier of one creator

  lemma RoomIsEnough(store: Store, event: Event)
    requires store.heldKeys < MAXIMUM_CACHED_KEYS
    ensures !Overflows(store, event)
  {
  }

  lemma OneMore(asked: set<nat>, k: nat)
    requires k !in asked
    ensures |asked + {k}| == |asked| + 1
  {
  }

  lemma OneMoreFits(periods: seq<Period>, endPoint: EndPoint, asked: set<nat>, store: Store, lookup: Lookup)
    requires Proper(periods) && HasStatedPeriod(periods, lookup.minute)
    requires Orderly(store.Keys(endPoint)) && KeysAre(periods, asked, store.Keys(endPoint))
    requires store.heldKeys == |asked| && Misses(endPoint, store, lookup)
    requires |asked + {KeyAt(periods, lookup.minute)}| <= MAXIMUM_CACHED_KEYS
    ensures !Overflows(store, AnswerTo(periods, endPoint, lookup))
    ensures Step(store, AnswerTo(periods, endPoint, lookup)).heldKeys == store.heldKeys + 1
  {
    MissesWhatWasNotAsked(periods, endPoint, asked, store, lookup);
    OneMore(asked, KeyAt(periods, lookup.minute));
    RoomIsEnough(store, AnswerTo(periods, endPoint, lookup));
    var key := MissAddsKey(periods, endPoint, asked, store, lookup);
  }

  /** Where the store began empty and only this creator is asked, it holds a key for
      each request, so it is full only when more keys are asked about than it holds. */
  lemma {:induction false} FewKeysFit(periods: seq<Period>, endPoint: EndPoint, items: seq<Item>)
    requires Proper(periods) && AllStated(periods, items) && (forall item <- items :: item.Here?)
    requires |KeysAsked(periods, items)| <= MAXIMUM_CACHED_KEYS
    ensures AllFit(periods, endPoint, EMPTY, items)
    ensures var tally := InTurn(periods, endPoint, EMPTY, items); tally.store.heldKeys == tally.requests
    decreases items
  {
    if items != [] {
      var n := |items| - 1;
      KeysAskedWithOneMore(periods, items);
      FewerIsNoMore(KeysAsked(periods, items[..n]), KeysAsked(periods, items));
      FewKeysFit(periods, endPoint, items[..n]);
      StoreIsAlwaysSound([]);
      OneRequestForEachKey(periods, endPoint, EMPTY, items[..n]);
      assert items[n] in items;
      var before := InTurn(periods, endPoint, EMPTY, items[..n]);
      SoundIsOrderly(before.store, endPoint);
      if Misses(endPoint, before.store, items[n].lookup) {
        OneMoreFits(periods, endPoint, KeysAsked(periods, items[..n]), before.store, items[n].lookup);
      }
    }
  }

  /**
   So a verifier that asks one creator makes one request for each key it asks about,
   however many keys the creator has, until it has asked about more than it can hold.
   */
  lemma OneCreatorOneRequestForEachKey(periods: seq<Period>, endPoint: EndPoint, items: seq<Item>)
    requires Proper(periods) && AllStated(periods, items) && (forall item <- items :: item.Here?)
    requires |KeysAsked(periods, items)| <= 1024
    ensures InTurn(periods, endPoint, EMPTY, items).requests == |KeysAsked(periods, items)|
  {
    StoreIsAlwaysSound([]);
    FewKeysFit(periods, endPoint, items);
    OneRequestForEachKey(periods, endPoint, EMPTY, items);
  }
}
