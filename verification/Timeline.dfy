/**
 What a creator's keys really are: the whole list of periods it ever publishes,
 in order, counted in minutes. The store of keys is measured against it.
 */
module Timeline {
  import opened Common
  import opened KeyStore
  import opened StoreLaws

  /** A key and the minute it came into force. The start may precede 2020. */
  datatype Period = Period(start: int, pem: Pem)

  /** Starts ascend and no key is gone back to. */
  ghost predicate Proper(periods: seq<Period>) {
    forall i, j :: 0 <= i < j < |periods| ==>
      periods[i].start < periods[j].start && periods[i].pem != periods[j].pem
  }

  /** Whether the key of this period is the creator's key at the minute. */
  predicate InForce(periods: seq<Period>, k: nat, minute: int) {
    && k < |periods| && periods[k].start <= minute
    && (k + 1 < |periods| ==> minute < periods[k + 1].start)
  }

  lemma NotInForceLater(periods: seq<Period>, i: nat, j: nat, minute: int)
    requires Proper(periods) && InForce(periods, i, minute) && i < j
    ensures !InForce(periods, j, minute)
  {
    if j < |periods| {
      assert i + 1 == j || periods[i + 1].start < periods[j].start;
    }
  }

  lemma OneInForce(periods: seq<Period>, i: nat, j: nat, minute: int)
    requires Proper(periods) && InForce(periods, i, minute) && InForce(periods, j, minute)
    ensures i == j
  {
    if i < j {
      NotInForceLater(periods, i, j, minute);
    } else if j < i {
      NotInForceLater(periods, j, i, minute);
    }
  }

  /** A minute as an answer's moment is counted, where the count can hold it. */
  function Counted(minute: int): Option<Minute> {
    if 0 <= minute <= LAST_MINUTE then Some(minute) else None
  }

  /** The creator when it answers: how many periods it has published, and its clock. */
  datatype Creator = Creator(published: nat, clock: int)

  /** Periods not yet published start after the moment of the answer. */
  ghost predicate Possible(periods: seq<Period>, creator: Creator) {
    && creator.published <= |periods|
    && forall j :: creator.published <= j < |periods| ==> periods[j].start > creator.clock
  }

  /** The minute a creator looks up: the one named, and never one to come. */
  function LookedUp(date: Option<Minute>, clock: int): int {
    if date.None? then clock else Min(date.value, clock)
  }

  /** The answer names the key in force, with no span or with the span published. */
  ghost predicate Truthful(periods: seq<Period>, creator: Creator, k: nat,
                           date: Option<Minute>, pem: Pem, start: Option<Minute>, end: Option<Minute>)
  {
    && creator.published <= |periods|
    && InForce(periods[..creator.published], k, LookedUp(date, creator.clock))
    && pem == periods[k].pem
    && (|| (start == None && end == None)
        || StatesSpan(periods[..creator.published], k, start, end))
  }

  predicate StatesSpan(periods: seq<Period>, k: nat, start: Option<Minute>, end: Option<Minute>)
    requires k < |periods|
  {
    && start == Counted(periods[k].start)
    && end == (if k + 1 < |periods| then Counted(periods[k + 1].start) else None)
  }

  /** The creator's clock is at most the allowance behind the clock of the holder. */
  ghost predicate InStep(periods: seq<Period>, event: Event, creator: Creator, k: nat) {
    && event.Answered? && Possible(periods, creator)
    && Truthful(periods, creator, k, event.url.date, event.pem, event.start, event.end)
    && creator.clock >= event.now - CLOCK_DRIFT_ALLOWANCE_MINUTES
  }

  /** The whole schedule is published and its spans stated. The clock is anything. */
  ghost predicate FromWhole(periods: seq<Period>, event: Event, clock: int, k: nat) {
    && event.Answered? && event.start.Some?
    && Truthful(periods, Creator(|periods|, clock), k, event.url.date, event.pem, event.start, event.end)
    && StatesSpan(periods, k, event.start, event.end)
  }

  /**
   An event at the end point came from the creator these periods belong to. Where
   the whole schedule is known to be published from the outset, its clock is free.
   */
  ghost predicate Honest(periods: seq<Period>, whole: bool, endPoint: EndPoint, event: Event) {
    event.Answered? && event.url.endPoint == endPoint ==>
      || (!whole && exists creator, k :: InStep(periods, event, creator, k))
      || (exists clock, k :: FromWhole(periods, event, clock, k))
  }

  // ------------------------------------------------------------- coherence

  /** The held span lies inside the period of its key. */
  ghost predicate Inside(periods: seq<Period>, k: nat, key: Held) {
    && k < |periods| && key.pem == periods[k].pem
    && periods[k].start <= key.first <= key.last
    && (k + 1 < |periods| ==> key.last < periods[k + 1].start)
  }

  /** What the held key passes on as stated is the edge of its period. Where the
      whole schedule is published, nothing published is left unstated. */
  ghost predicate Faithful(periods: seq<Period>, whole: bool, k: nat, key: Held) {
    && Inside(periods, k, key)
    && (key.explicit ==> key.first == periods[k].start && k + 1 < |periods| && key.last == periods[k + 1].start - 1)
    && (key.openEnded ==> key.first == periods[k].start)
    && (whole ==> key.openEnded || key.explicit)
    && (whole && k + 1 < |periods| && periods[k + 1].start <= LAST_MINUTE ==> key.explicit)
  }

  ghost predicate Coherent(periods: seq<Period>, whole: bool, keys: seq<Held>) {
    forall key <- keys :: exists k :: Faithful(periods, whole, k, key)
  }

  /** Publishing more changes no answer already given about the past. */
  lemma PublishedIsFinal(periods: seq<Period>, creator: Creator, k: nat, minute: int)
    requires Possible(periods, creator) && minute <= creator.clock
    requires InForce(periods[..creator.published], k, minute)
    ensures InForce(periods, k, minute)
  {
  }

  lemma OfferInStep(periods: seq<Period>, event: Event, creator: Creator, k: nat)
    requires Proper(periods) && InStep(periods, event, creator, k)
    ensures var offer := Offer(event.url, event.pem, event.start, event.end, event.now);
      offer.Some? ==> Faithful(periods, false, k, offer.value)
  {
    PublishedIsFinal(periods, creator, k, LookedUp(event.url.date, creator.clock));
  }

  lemma OfferFromWhole(periods: seq<Period>, event: Event, clock: int, k: nat)
    requires Proper(periods) && FromWhole(periods, event, clock, k)
    ensures var offer := Offer(event.url, event.pem, event.start, event.end, event.now);
      offer.Some? && Faithful(periods, true, k, offer.value)
  {
  }

  lemma HonestOffer(periods: seq<Period>, whole: bool, event: Event) returns (k: nat)
    requires Proper(periods) && event.Answered? && Honest(periods, whole, event.url.endPoint, event)
    ensures var offer := Offer(event.url, event.pem, event.start, event.end, event.now);
      offer.Some? ==> Faithful(periods, whole, k, offer.value)
  {
    if clock: int, i: nat :| FromWhole(periods, event, clock, i) {
      OfferFromWhole(periods, event, clock, i);
      return i;
    } else {
      var creator, i: nat :| InStep(periods, event, creator, i);
      OfferInStep(periods, event, creator, i);
      return i;
    }
  }

  /** Spans inside different periods are different keys' and never meet. */
  lemma PeriodsAreApart(periods: seq<Period>, j: nat, a: Held, k: nat, b: Held)
    requires Proper(periods) && Inside(periods, j, a) && Inside(periods, k, b)
    ensures a.pem == b.pem <==> j == k
    ensures j != k ==> !a.Meets(b.first, b.last)
  {
    if j < k {
      assert j + 1 == k || periods[j + 1].start < periods[k].start;
    } else if k < j {
      assert k + 1 == j || periods[k + 1].start < periods[j].start;
    }
  }

  lemma ClearOfOtherPeriods(periods: seq<Period>, whole: bool, keys: seq<Held>, own: nat, span: Held, k: nat)
    requires Proper(periods) && Coherent(periods, whole, keys) && Inside(periods, k, span)
    requires forall n :: 0 <= n < |keys| && n != own ==> keys[n].pem != span.pem
    ensures ClearOfOthers(keys, own, span.first, span.last)
  {
    forall n | 0 <= n < |keys| && n != own
      ensures !keys[n].Meets(span.first, span.last)
    {
      assert keys[n] in keys;
      var j :| Faithful(periods, whole, j, keys[n]);
      PeriodsAreApart(periods, j, keys[n], k, span);
    }
  }

  /** An honest offer is never refused. */
  lemma HonestOfferIsKept(periods: seq<Period>, whole: bool, keys: seq<Held>, offer: Held, k: nat)
    requires Proper(periods) && Coherent(periods, whole, keys) && Orderly(keys)
    requires Faithful(periods, whole, k, offer)
    ensures Dispose(keys, offer) != Refused
    ensures Dispose(keys, offer).Widens? ==>
      Faithful(periods, whole, k, Widened(keys[Dispose(keys, offer).at], offer))
  {
    var i := IndexOf(keys, offer.pem);
    if i < |keys| {
      assert keys[i] in keys;
      var j :| Faithful(periods, whole, j, keys[i]);
      PeriodsAreApart(periods, j, keys[i], k, offer);
      ClearOfOtherPeriods(periods, whole, keys, i, Widened(keys[i], offer), k);
    } else {
      ClearOfOtherPeriods(periods, whole, keys, i, offer, k);
    }
  }

  lemma PlaceKeepsCoherent(periods: seq<Period>, whole: bool, store: Store, endPoint: EndPoint, offer: Held, k: nat)
    requires Proper(periods) && Sound(store)
    requires Coherent(periods, whole, store.Keys(endPoint)) && Faithful(periods, whole, k, offer)
    ensures Coherent(periods, whole, Place(store, endPoint, offer).Keys(endPoint))
  {
    HonestOfferIsKept(periods, whole, store.Keys(endPoint), offer, k);
  }

  /** What placing an answer for another end point, or a clear, leaves here. */
  lemma OthersDoNotMatter(periods: seq<Period>, whole: bool, store: Store, endPoint: EndPoint, event: Event)
    requires event.Cleared? || event.url.endPoint != endPoint
    requires Coherent(periods, whole, store.Keys(endPoint))
    ensures Coherent(periods, whole, Step(store, event).Keys(endPoint))
  {
  }

  lemma StepKeepsCoherent(periods: seq<Period>, whole: bool, store: Store, endPoint: EndPoint, event: Event)
    requires Proper(periods) && Sound(store) && Coherent(periods, whole, store.Keys(endPoint))
    requires Honest(periods, whole, endPoint, event)
    ensures Sound(Step(store, event)) && Coherent(periods, whole, Step(store, event).Keys(endPoint))
    ensures NoneRefused(store, endPoint, [event])
  {
    StoreStaysSound(store, [event]);
    assert After(store, [event]) == Step(store, event);
    if event.Cleared? || event.url.endPoint != endPoint {
      OthersDoNotMatter(periods, whole, store, endPoint, event);
    } else {
      var k := HonestOffer(periods, whole, event);
      var offer := Offer(event.url, event.pem, event.start, event.end, event.now);
      if offer.Some? {
        HonestOfferIsKept(periods, whole, store.Keys(endPoint), offer.value, k);
        PlaceKeepsCoherent(periods, whole, store, endPoint, offer.value, k);
      }
    }
  }

  /** Whether no offer for the end point was ever turned away along a run. */
  predicate NoneRefused(store: Store, endPoint: EndPoint, events: seq<Event>)
    decreases events
  {
    events == [] || (
      && (events[0].Answered? && events[0].url.endPoint == endPoint ==>
          var offer := Offer(events[0].url, events[0].pem, events[0].start, events[0].end, events[0].now);
          offer.Some? ==> Dispose(store.Keys(endPoint), offer.value) != Refused)
      && NoneRefused(Step(store, events[0]), endPoint, events[1..]))
  }

  lemma {:induction false} RunStaysCoherent(periods: seq<Period>, whole: bool, store: Store, endPoint: EndPoint,
                                            events: seq<Event>)
    requires Proper(periods) && Sound(store) && Coherent(periods, whole, store.Keys(endPoint))
    requires forall event <- events :: Honest(periods, whole, endPoint, event)
    ensures Coherent(periods, whole, After(store, events).Keys(endPoint))
    ensures NoneRefused(store, endPoint, events)
    decreases events
  {
    if events != [] {
      StepKeepsCoherent(periods, whole, store, endPoint, events[0]);
      RunStaysCoherent(periods, whole, Step(store, events[0]), endPoint, events[1..]);
    }
  }

  /** A hit in a coherent store is the key in force, and reports its edges. */
  lemma HitIsInForce(periods: seq<Period>, whole: bool, store: Store, url: Url, now: Clock) returns (k: nat)
    requires Proper(periods) && Coherent(periods, whole, store.Keys(url.endPoint))
    requires HeldFor(store, url, now).Some?
    ensures InForce(periods, k, url.date.value)
    ensures StatesEdges(periods, whole, k, HeldFor(store, url, now).value)
  {
    var key := FirstServing(store.Keys(url.endPoint), url.date.value, now).value;
    k :| Faithful(periods, whole, k, key);
  }

  /** The answer is this period's key, and any edge it states is the period's. */
  ghost predicate StatesEdges(periods: seq<Period>, whole: bool, k: nat, answer: Answer) {
    && k < |periods| && answer.pem == periods[k].pem
    && (answer.known ==> answer.first == periods[k].start)
    && (answer.known ==>
          answer.last == LAST_MINUTE || (k + 1 < |periods| && answer.last == periods[k + 1].start - 1))
    && (whole ==> answer.known)
    && (whole && k + 1 < |periods| && periods[k + 1].start <= LAST_MINUTE ==> answer.last == periods[k + 1].start - 1)
  }

  /** So does an answer come straight from the creator. */
  lemma AnswerStatesEdges(periods: seq<Period>, creator: Creator, k: nat, date: Option<Minute>,
                          pem: Pem, start: Option<Minute>, end: Option<Minute>)
    requires Proper(periods) && Truthful(periods, creator, k, date, pem, start, end)
    ensures StatesEdges(periods, creator.published == |periods| && start.Some?, k, Stated(pem, start, end))
  {
  }

  /**
   The cache agrees with the creator. After any run in which this end point's
   answers came from the creator, every hit is the key in force at the minute
   asked about, and no answer was ever turned away.
   */
  lemma CacheAgreesWithCreator(periods: seq<Period>, whole: bool, url: Url, events: seq<Event>, now: Clock)
    returns (k: nat)
    requires Proper(periods)
    requires forall event <- events :: Honest(periods, whole, url.endPoint, event)
    ensures NoneRefused(EMPTY, url.endPoint, events)
    ensures var hit := HeldFor(After(EMPTY, events), url, now);
      hit.Some? ==> InForce(periods, k, url.date.value) && StatesEdges(periods, whole, k, hit.value)
  {
    StoreIsAlwaysSound([]);
    RunStaysCoherent(periods, whole, EMPTY, url.endPoint, events);
    k := 0;
    if HeldFor(After(EMPTY, events), url, now).Some? {
      k := HitIsInForce(periods, whole, After(EMPTY, events), url, now);
    }
  }
}
