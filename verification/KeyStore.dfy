/**
 The store of public keys a verifier has fetched: what is held, how a lookup is
 served from it and how an answer is recorded in it. The value level functions
 say what each operation does to the store, and the classes at the end are the
 mutable store itself, each method proved against its function.
 */
module KeyStore {
  import opened Common

  const MAXIMUM_CACHED_KEYS: nat := 1024
  const CLOCK_DRIFT_ALLOWANCE_MINUTES: nat := 15

  /** A key end point: scheme, creator domain and version, without the query. */
  type EndPoint = string

  /** The URL of a request: the end point asked and the minute it names, if any. */
  datatype Url = Url(endPoint: EndPoint, date: Option<Minute>)

  /** One key a creator answered with and the minutes it is known to cover. */
  datatype Held = Held(pem: Pem, first: Minute, last: Minute, explicit: bool, openEnded: bool) {
    predicate Covers(minute: Minute) {
      first <= minute <= last
    }

    predicate Meets(lo: Minute, hi: Minute) {
      last >= lo && first <= hi
    }
  }

  /** What a lookup or a fetch answers with: the key and any span the creator stated. */
  datatype Answer = Answer(pem: Pem, first: Minute, last: Minute, known: bool) {
    predicate Covers(minute: Minute) {
      known && first <= minute <= last
    }
  }

  datatype Store = Store(cache: map<EndPoint, seq<Held>>, heldKeys: nat) {
    function Keys(endPoint: EndPoint): seq<Held> {
      if endPoint in cache then cache[endPoint] else []
    }
  }

  const EMPTY: Store := Store(map[], 0)

  /** Whether a creator that states no span may have read the minute as its present. */
  predicate Recent(minute: Minute, now: Clock) {
    minute > now - CLOCK_DRIFT_ALLOWANCE_MINUTES
  }

  // ---------------------------------------------------------------- lookups

  function StatedFor(key: Held): Answer {
    if key.explicit then Answer(key.pem, key.first, key.last, true)
    else if key.openEnded then Answer(key.pem, key.first, LAST_MINUTE, true)
    else Answer(key.pem, 0, 0, false)
  }

  /** Whether a lookup of the minute at this moment may be served from the key. */
  predicate Serves(key: Held, minute: Minute, now: Clock) {
    key.Covers(minute) && (key.explicit || !Recent(minute, now))
  }

  function FirstServing(keys: seq<Held>, minute: Minute, now: Clock): (found: Option<Held>)
    ensures found.Some? ==> found.value in keys && Serves(found.value, minute, now)
    ensures found.None? ==> forall key <- keys :: !Serves(key, minute, now)
  {
    if keys == [] then None
    else if Serves(keys[0], minute, now) then Some(keys[0])
    else FirstServing(keys[1..], minute, now)
  }

  function HeldFor(store: Store, url: Url, now: Clock): Option<Answer> {
    if url.date.None? then None
    else
      var found := FirstServing(store.Keys(url.endPoint), url.date.value, now);
      if found.Some? then Some(StatedFor(found.value)) else None
  }

  // ---------------------------------------------------------------- holding

  /** The span a creator stated in its answer, the end being the next key's start. */
  function Stated(pem: Pem, start: Option<Minute>, end: Option<Minute>): Answer {
    if start.None? then Answer(pem, 0, 0, false)
    else if end.Some? && end.value > start.value then Answer(pem, start.value, end.value - 1, true)
    else Answer(pem, start.value, LAST_MINUTE, true)
  }

  /** What an answer lets the store hold: a key with a span, or nothing at all.
      The moment is the one clock reading the branch taken depends on. */
  function Offer(url: Url, pem: Pem, start: Option<Minute>, end: Option<Minute>, now: Clock): Option<Held>
  {
    if start.Some? && end.Some? && end.value > start.value then
      Some(Held(pem, start.value, end.value - 1, true, false))
    else if start.Some? then
      Some(Held(pem, start.value, Max(start.value, now - CLOCK_DRIFT_ALLOWANCE_MINUTES), false, true))
    else if url.date.Some? && !Recent(url.date.value, now) then
      Some(Held(pem, url.date.value, url.date.value, false, false))
    else None
  }

  /** The position of the key with this PEM, or the length where there is none. */
  function IndexOf(keys: seq<Held>, pem: Pem): (i: nat)
    ensures i <= |keys|
    ensures i < |keys| ==> keys[i].pem == pem
    ensures forall j :: 0 <= j < i ==> keys[j].pem != pem
  {
    if keys == [] || keys[0].pem == pem then 0 else 1 + IndexOf(keys[1..], pem)
  }

  /** Whether no key other than the one at this position meets the span. */
  predicate ClearOfOthers(keys: seq<Held>, own: nat, lo: Minute, hi: Minute) {
    forall j :: 0 <= j < |keys| && j != own ==> !keys[j].Meets(lo, hi)
  }

  function Widened(key: Held, offer: Held): Held {
    var explicit := key.explicit || offer.explicit;
    Held(key.pem, Min(offer.first, key.first), Max(offer.last, key.last),
         explicit, !explicit && (key.openEnded || offer.openEnded))
  }

  /** What becomes of an offer. */
  datatype Disposition = Widens(at: nat) | Refused | Adds

  function Dispose(keys: seq<Held>, offer: Held): (d: Disposition)
    ensures d.Widens? ==> d.at < |keys| && keys[d.at].pem == offer.pem
  {
    var i := IndexOf(keys, offer.pem);
    if i < |keys| then
      var wide := Widened(keys[i], offer);
      if ClearOfOthers(keys, i, wide.first, wide.last) then Widens(i) else Refused
    else if ClearOfOthers(keys, |keys|, offer.first, offer.last) then Adds
    else Refused
  }

  function Place(store: Store, endPoint: EndPoint, offer: Held): Store {
    var keys := store.Keys(endPoint);
    match Dispose(keys, offer)
    case Refused => store
    case Widens(i) => store.(cache := store.cache[endPoint := keys[i := Widened(keys[i], offer)]])
    case Adds =>
      if store.heldKeys >= MAXIMUM_CACHED_KEYS then Store(map[endPoint := [offer]], 1)
      else Store(store.cache[endPoint := keys + [offer]], store.heldKeys + 1)
  }

  function Hold(store: Store, url: Url, pem: Pem, start: Option<Minute>, end: Option<Minute>, now: Clock): Store
  {
    var offer := Offer(url, pem, start, end, now);
    if offer.None? then store else Place(store, url.endPoint, offer.value)
  }

  // ------------------------------------------------- the lock's other table

  /** The identity of a shared future. */
  type FutureId = nat

  /** What the locked part of asking for a key does. */
  datatype Asked = Hit(answer: Answer) | Joins(shared: FutureId) | Leads(shared: FutureId)

  /** `unused` is the future made where no request for the URL is running. */
  function Ask(store: Store, inFlight: map<Url, FutureId>, url: Url, now: Clock, unused: FutureId): Asked {
    var held := HeldFor(store, url, now);
    if held.Some? then Hit(held.value)
    else if url in inFlight then Joins(inFlight[url])
    else Leads(unused)
  }

  function InFlightAfterAsk(inFlight: map<Url, FutureId>, url: Url, asked: Asked): map<Url, FutureId> {
    if asked.Leads? then inFlight[url := asked.shared] else inFlight
  }

  /** A finished request is forgotten, unless the entry is another request's. */
  function Forget(inFlight: map<Url, FutureId>, url: Url, shared: FutureId): map<Url, FutureId> {
    if url in inFlight && inFlight[url] == shared then inFlight - {url} else inFlight
  }

  // --------------------------------------------------------- mutable store

  class HeldKey {
    const pem: Pem
    var first: Minute
    var last: Minute
    var explicit: bool
    var openEnded: bool

    constructor (pem: Pem, first: Minute, last: Minute, explicit: bool, openEnded: bool)
      ensures Value() == Held(pem, first, last, explicit, openEnded)
    {
      this.pem, this.first, this.last := pem, first, last;
      this.explicit, this.openEnded := explicit, openEnded;
    }

    function Value(): Held
      reads this
    {
      Held(pem, first, last, explicit, openEnded)
    }
  }

  ghost function Values(keys: seq<HeldKey>): (values: seq<Held>)
    reads keys
    ensures |values| == |keys|
    ensures forall i :: 0 <= i < |keys| ==> values[i] == keys[i].Value()
  {
    seq(|keys|, i requires 0 <= i < |keys| reads keys => keys[i].Value())
  }

  function KeysOf(cache: map<EndPoint, seq<HeldKey>>, endPoint: EndPoint): seq<HeldKey> {
    if endPoint in cache then cache[endPoint] else []
  }

  ghost function ObjectsOf(cache: map<EndPoint, seq<HeldKey>>): set<HeldKey> {
    set endPoint, i | endPoint in cache && 0 <= i < |cache[endPoint]| :: cache[endPoint][i]
  }

  lemma ObjectsWithOneMore(cache: map<EndPoint, seq<HeldKey>>, endPoint: EndPoint, key: HeldKey)
    ensures ObjectsOf(cache[endPoint := KeysOf(cache, endPoint) + [key]]) <= ObjectsOf(cache) + {key}
  {
    var after := cache[endPoint := KeysOf(cache, endPoint) + [key]];
    forall held | held in ObjectsOf(after)
      ensures held in ObjectsOf(cache) + {key}
    {
      var e, i :| e in after && 0 <= i < |after[e]| && after[e][i] == held;
    }
  }

  /** No key object is held twice, so changing one changes one place. */
  ghost predicate Unshared(cache: map<EndPoint, seq<HeldKey>>) {
    forall e, i, f, j |
      e in cache && f in cache && 0 <= i < |cache[e]| && 0 <= j < |cache[f]| && (e != f || i != j) ::
      cache[e][i] != cache[f][j]
  }

  lemma UnsharedWithOneMore(cache: map<EndPoint, seq<HeldKey>>, endPoint: EndPoint, key: HeldKey)
    requires Unshared(cache)
    requires key !in ObjectsOf(cache)
    ensures Unshared(cache[endPoint := KeysOf(cache, endPoint) + [key]])
  {
  }

  /** The stores one lock guards. */
  class KeyCache {
    var cache: map<EndPoint, seq<HeldKey>>
    var heldKeys: nat
    var inFlight: map<Url, FutureId>

    ghost function Objects(): set<HeldKey>
      reads this
    {
      ObjectsOf(cache)
    }

    ghost predicate Valid()
      reads this
    {
      Unshared(cache)
    }

    ghost function View(): Store
      reads this, Objects()
    {
      Store(map endPoint | endPoint in cache :: Values(cache[endPoint]), heldKeys)
    }

    constructor ()
      ensures Valid() && View() == EMPTY && inFlight == map[] && Objects() == {}
    {
      cache, heldKeys, inFlight := map[], 0, map[];
    }

    method Clear()
      modifies this
      ensures Valid() && View() == EMPTY && inFlight == map[] && Objects() == {}
    {
      cache, heldKeys, inFlight := map[], 0, map[];
    }

    method LookUp(url: Url, now: Clock) returns (answer: Option<Answer>)
      ensures answer == HeldFor(View(), url, now)
    {
      if url.date.None? { return None; }
      var minute := url.date.value;
      if url.endPoint !in cache { return None; }
      var keys := cache[url.endPoint];
      ghost var values := Values(keys);
      assert values == View().Keys(url.endPoint);
      var i := 0;
      while i < |keys|
        invariant 0 <= i <= |keys|
        invariant FirstServing(values, minute, now) == FirstServing(values[i..], minute, now)
      {
        var key := keys[i].Value();
        if key.Covers(minute) && (key.explicit || !Recent(minute, now)) {
          return Some(StatedFor(key));
        }
        i := i + 1;
      }
      return None;
    }

    /** The first part of fetching a key, under the lock. */
    method BeginAsk(url: Url, now: Clock, unused: FutureId) returns (asked: Asked)
      requires Valid()
      modifies this`inFlight
      ensures Valid() && View() == old(View())
      ensures asked == Ask(old(View()), old(inFlight), url, now, unused)
      ensures inFlight == InFlightAfterAsk(old(inFlight), url, asked)
    {
      var held := LookUp(url, now);
      if held.Some? { return Hit(held.value); }
      if url in inFlight { return Joins(inFlight[url]); }
      inFlight := inFlight[url := unused];
      return Leads(unused);
    }

    /** The part of a successful request under the lock. */
    method Settle(url: Url, shared: FutureId, pem: Pem, start: Option<Minute>, end: Option<Minute>, now: Clock)
      returns (answer: Answer)
      requires Valid()
      modifies this, Objects()
      ensures Valid() && fresh(Objects() - old(Objects()))
      ensures View() == Hold(old(View()), url, pem, start, end, now)
      ensures answer == Stated(pem, start, end)
      ensures inFlight == Forget(old(inFlight), url, shared)
    {
      answer := HoldAnswer(url, pem, start, end, now);
      Abandon(url, shared);
    }

    /** The part of any finished request under the lock, and all of a failed one's. */
    method Abandon(url: Url, shared: FutureId)
      requires Valid()
      modifies this`inFlight
      ensures Valid() && View() == old(View())
      ensures inFlight == Forget(old(inFlight), url, shared)
    {
      if url in inFlight && inFlight[url] == shared {
        inFlight := inFlight - {url};
      }
    }

    /** Widens a held key's span, unless another key of the list is in the way. */
    method Widen(keys: seq<HeldKey>, key: HeldKey, ghost own: nat, first: Minute, last: Minute)
      returns (widened: bool)
      requires own < |keys| && keys[own] == key
      requires forall j :: 0 <= j < |keys| && j != own ==> keys[j] != key
      modifies key`first, key`last
      ensures var lo, hi := Min(first, old(key.first)), Max(last, old(key.last));
        && widened == ClearOfOthers(old(Values(keys)), own, lo, hi)
        && key.first == (if widened then lo else old(key.first))
        && key.last == (if widened then hi else old(key.last))
    {
      var lo: Minute, hi: Minute := Min(first, key.first), Max(last, key.last);
      ghost var values := Values(keys);
      var i := 0;
      while i < |keys|
        invariant 0 <= i <= |keys|
        invariant forall j :: 0 <= j < i && j != own ==> !values[j].Meets(lo, hi)
      {
        var other := keys[i];
        if other != key && other.last >= lo && other.first <= hi {
          assert values[i].Meets(lo, hi);
          return false;
        }
        i := i + 1;
      }
      key.first, key.last := lo, hi;
      return true;
    }

    method HoldAnswer(url: Url, pem: Pem, start: Option<Minute>, end: Option<Minute>, now: Clock)
      returns (stated: Answer)
      requires Valid()
      modifies this`cache, this`heldKeys, Objects()
      ensures Valid() && fresh(Objects() - old(Objects()))
      ensures View() == Hold(old(View()), url, pem, start, end, now)
      ensures stated == Stated(pem, start, end)
    {
      stated := Stated(pem, start, end);
      var offer := Offer(url, pem, start, end, now);
      if offer.None? { return; }
      var o := offer.value;
      var keys := KeysOf(cache, url.endPoint);
      ghost var values := Values(keys);
      assert values == View().Keys(url.endPoint);
      var i := 0;
      while i < |keys|
        invariant 0 <= i <= |keys|
        invariant forall j :: 0 <= j < i ==> values[j].pem != pem
      {
        if keys[i].pem == pem {
          assert IndexOf(values, pem) == i;
          WidenHeld(url.endPoint, i, o);
          return;
        }
        i := i + 1;
      }
      assert IndexOf(values, pem) == |values|;
      i := 0;
      while i < |keys|
        invariant 0 <= i <= |keys|
        invariant forall j :: 0 <= j < i ==> !values[j].Meets(o.first, o.last)
      {
        if keys[i].last >= o.first && keys[i].first <= o.last {
          assert values[i].Meets(o.first, o.last);
          return;
        }
        i := i + 1;
      }
      Append(url.endPoint, o);
    }

    /** What the branch that found the PEM held already does to the key found. */
    method Absorb(keys: seq<HeldKey>, own: nat, offer: Held)
      requires own < |keys|
      requires forall j :: 0 <= j < |keys| && j != own ==> keys[j] != keys[own]
      requires IndexOf(Values(keys), offer.pem) == own
      modifies keys[own]
      ensures keys[own].Value() == AbsorbedBy(old(Values(keys)), own, offer)
    {
      var key := keys[own];
      var widened := Widen(keys, key, own, offer.first, offer.last);
      if widened {
        key.explicit := key.explicit || offer.explicit;
        key.openEnded := !key.explicit && (key.openEnded || offer.openEnded);
      }
    }

    static ghost function AbsorbedBy(values: seq<Held>, own: nat, offer: Held): Held
      requires own < |values|
    {
      if Dispose(values, offer) == Widens(own) then Widened(values[own], offer) else values[own]
    }

    method WidenHeld(endPoint: EndPoint, i: nat, offer: Held)
      requires Valid() && endPoint in cache && i < |cache[endPoint]|
      requires IndexOf(Values(cache[endPoint]), offer.pem) == i
      modifies Objects()
      ensures Valid() && View() == Place(old(View()), endPoint, offer)
    {
      var keys := cache[endPoint];
      ghost var before := View();
      assert forall e, j | e in cache && 0 <= j < |cache[e]| && (e != endPoint || j != i) :: cache[e][j] != keys[i];
      Absorb(keys, i, offer);
      OneAbsorbed(before, endPoint, i, offer);
    }

    /** A change to one held key changes that one place of the view. */
    lemma OneAbsorbed(before: Store, endPoint: EndPoint, i: nat, offer: Held)
      requires endPoint in cache && i < |cache[endPoint]|
      requires cache.Keys == before.cache.Keys && heldKeys == before.heldKeys
      requires forall e | e in cache :: |cache[e]| == |before.cache[e]|
      requires IndexOf(before.cache[endPoint], offer.pem) == i
      requires forall e, j | e in cache && 0 <= j < |cache[e]| ::
        cache[e][j].Value() ==
          if e == endPoint && j == i then AbsorbedBy(before.cache[e], i, offer) else before.cache[e][j]
      ensures View() == Place(before, endPoint, offer)
    {
      var after := Place(before, endPoint, offer).cache;
      forall e | e in cache
        ensures Values(cache[e]) == after[e]
      {
      }
    }

    /** The branch that adds a key, emptying a full store first. */
    method Append(endPoint: EndPoint, offer: Held)
      requires Valid()
      requires Dispose(View().Keys(endPoint), offer) == Adds
      modifies this`cache, this`heldKeys
      ensures Valid() && fresh(Objects() - old(Objects()))
      ensures View() == Place(old(View()), endPoint, offer)
    {
      ghost var before := View();
      if heldKeys >= MAXIMUM_CACHED_KEYS {
        cache, heldKeys := map[], 0;
        assert View() == EMPTY && [] + [offer] == [offer];
      }
      AppendTo(endPoint, offer);
    }

    method AppendTo(endPoint: EndPoint, offer: Held)
      requires Valid()
      modifies this`cache, this`heldKeys
      ensures Valid() && fresh(Objects() - old(Objects()))
      ensures View() == Store(old(View()).cache[endPoint := old(View()).Keys(endPoint) + [offer]], old(heldKeys) + 1)
    {
      var keys := KeysOf(cache, endPoint);
      ghost var before, was := View(), cache;
      assert Values(keys) == before.Keys(endPoint);
      var key := new HeldKey(offer.pem, offer.first, offer.last, offer.explicit, offer.openEnded);
      UnsharedWithOneMore(cache, endPoint, key);
      cache, heldKeys := cache[endPoint := keys + [key]], heldKeys + 1;
      ObjectsWithOneMore(was, endPoint, key);
      assert forall e | e in was :: Values(was[e]) == before.cache[e];
      assert Values(keys + [key]) == Values(keys) + [offer];
      OneAppended(before, endPoint, offer);
    }

    lemma OneAppended(before: Store, endPoint: EndPoint, offer: Held)
      requires cache.Keys == before.cache.Keys + {endPoint} && heldKeys == before.heldKeys + 1
      requires forall e | e in cache ::
        Values(cache[e]) == if e == endPoint then before.Keys(endPoint) + [offer] else before.cache[e]
      ensures View() == Store(before.cache[endPoint := before.Keys(endPoint) + [offer]], before.heldKeys + 1)
    {
    }
  }
}
