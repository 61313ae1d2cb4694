/** What the cache keeps over whole runs of cf_get_with (src/cached_fetch.c), against an arbitrary fetcher:
  * every body it serves was fetched for that very entry, and a hit is fresh.
  */
module CacheRuns {
  import opened CachedFetch
  import opened Freshness
  import opened Wrappers

  // The store after a run of calls.
  function StoreAfter(dates: Dates, store: Store, calls: seq<Call>): Store {
    if calls == [] then store
    else CfGet(dates, StoreAfter(dates, store, calls[..|calls| - 1]), calls[|calls| - 1]).store
  }

  // The answer to the n-th call of a run.
  function AnswerAt(dates: Dates, store: Store, calls: seq<Call>, n: nat): Answer
    requires n < |calls|
  {
    CfGet(dates, StoreAfter(dates, store, calls[..n]), calls[n]).answer
  }

  /* ---------- where stored bodies come from ---------- */

  // A network exchange made on behalf of an entry.
  datatype Event = Event(key: Key, now: int, exchange: Exchange) {
    function Asked(): string { exchange.request.url }
    function Response(): Response<Bytes> { exchange.reply.response }
    // The final URL an entry made from this exchange records.
    function Recorded(): string { FinalUrlOf(Response(), key.url) }
  }

  function EventsOf(call: Call, answer: Answer): seq<Event> {
    if UsesStore(call) then
      seq(|answer.traffic|, i requires 0 <= i < |answer.traffic| => Event(KeyOf(call), call.now, answer.traffic[i]))
    else []
  }

  // All exchanges of a run that starts with an empty store.
  function History(dates: Dates, calls: seq<Call>): seq<Event> {
    if calls == [] then []
    else
      var n := |calls| - 1;
      History(dates, calls[..n]) + EventsOf(calls[n], AnswerAt(dates, map[], calls, n))
  }

  predicate Is200(e: Event) {
    e.exchange.reply.status.Ok? && e.Response().httpCode == 200
  }

  // Event i asked for the entry's own URL, or for the final URL an earlier 200 for that entry recorded.
  ghost predicate AskedForEntry(hist: seq<Event>, i: nat)
    requires i < |hist|
  {
    || hist[i].Asked() == hist[i].key.url
    || exists j: nat :: j < i && hist[j].key == hist[i].key && Is200(hist[j]) && hist[j].Recorded() == hist[i].Asked()
  }

  // Event i is a 200 with this body, fetched for this entry, that allows being stored.
  ghost predicate FetchedFor(hist: seq<Event>, i: nat, key: Key, body: Bytes) {
    && i < |hist|
    && hist[i].key == key && Is200(hist[i]) && AskedForEntry(hist, i)
    && !Lists(hist[i].Response().cacheControl, "no-store")
    && hist[i].Response().body == body
  }

  // Event i is the 200 the entry has its body and its final URL from: the whole of it, never a dropped one.
  ghost predicate ProducedBy(hist: seq<Event>, i: nat, key: Key, entry: Entry) {
    FetchedFor(hist, i, key, entry.body) && entry.meta.finalUrl == hist[i].Recorded() != ""
  }

  // Event i, a 200 or a 304 for this entry, is when its time of storage was set.
  ghost predicate StampedBy(hist: seq<Event>, i: nat, key: Key, entry: Entry) {
    i < |hist| && hist[i].key == key && hist[i].now == entry.meta.stored && (Is200(hist[i]) || NotModified(hist[i].exchange.reply))
  }

  ghost predicate WellSourced(store: Store, hist: seq<Event>) {
    forall key :: key in store ==>
      (exists i: nat :: ProducedBy(hist, i, key, store[key])) && (exists i: nat :: StampedBy(hist, i, key, store[key]))
  }

  lemma SourceExtends(hist: seq<Event>, more: seq<Event>, key: Key, entry: Entry)
    requires exists i: nat :: ProducedBy(hist, i, key, entry)
    ensures exists i: nat :: ProducedBy(hist + more, i, key, entry)
  {
    var i: nat :| ProducedBy(hist, i, key, entry);
    if hist[i].Asked() != hist[i].key.url {
      var j: nat :| j < i && hist[j].key == hist[i].key && Is200(hist[j]) && hist[j].Recorded() == hist[i].Asked();
      assert (hist + more)[j] == hist[j];
    }
    assert ProducedBy(hist + more, i, key, entry);
  }

  lemma StampExtends(hist: seq<Event>, more: seq<Event>, key: Key, entry: Entry)
    requires exists i: nat :: StampedBy(hist, i, key, entry)
    ensures exists i: nat :: StampedBy(hist + more, i, key, entry)
  {
    var i: nat :| StampedBy(hist, i, key, entry);
    assert StampedBy(hist + more, i, key, entry);
  }

  lemma WellSourcedExtends(store: Store, smaller: Store, hist: seq<Event>, more: seq<Event>)
    requires WellSourced(store, hist)
    requires forall key :: key in smaller ==> key in store && smaller[key] == store[key]
    ensures WellSourced(smaller, hist + more)
  {
    hide ProducedBy, StampedBy;
    forall key | key in smaller
      ensures (exists i: nat :: ProducedBy(hist + more, i, key, smaller[key])) && (exists i: nat :: StampedBy(hist + more, i, key, smaller[key]))
    {
      SourceExtends(hist, more, key, store[key]);
      StampExtends(hist, more, key, store[key]);
    }
  }

  // What can be put under a key has its final URL in full.
  lemma AcceptedKeepsFinalUrl(key: Key, r: Response<Bytes>, now: int)
    requires Accepts(key, Entry(MetaFromResponse(r, key.url, now), r.body))
    ensures MetaFromResponse(r, key.url, now).finalUrl == FinalUrlOf(r, key.url) != ""
  {
  }

  lemma KeptHeaders(r: Response<Bytes>, url: string, now: int)
    ensures var m := MetaFromResponse(r, url, now);
            m.etag == r.etag && m.lastModified == r.lastModified && m.cacheControl == r.cacheControl &&
            m.expires == r.expires && m.date == r.date && m.stored == now
  {
  }

  // Storing a 200 that was asked for on the entry's behalf keeps the store well sourced.
  lemma RememberedWellSourced(store: Store, env: Env, key: Key, hist: seq<Event>, exchange: Exchange, now: int)
    requires WellSourced(store, hist) && exchange.reply.status.Ok?
    requires AskedForEntry(hist + [Event(key, now, exchange)], |hist|)
    ensures WellSourced(Remembered(store, env, key, exchange.reply.response, now), hist + [Event(key, now, exchange)])
  {
    hide CopyVal, Storable, Accepts, Lists, MetaFromResponse;
    var e := Event(key, now, exchange);
    var r := exchange.reply.response;
    var meta := MetaFromResponse(r, key.url, now);
    WellSourcedExtends(store, store, hist, [e]);
    if Storable(r.httpCode, meta, |r.body|) && env.putOk && Accepts(key, Entry(meta, r.body)) {
      StorableMeans(r.httpCode, meta, |r.body|);
      AcceptedKeepsFinalUrl(key, r, now);
      KeptHeaders(r, key.url, now);
      assert (hist + [e])[|hist|] == e;
      assert ProducedBy(hist + [e], |hist|, key, Entry(meta, r.body));
      assert StampedBy(hist + [e], |hist|, key, Entry(meta, r.body));
    }
  }

  lemma StepWellSourced(dates: Dates, store: Store, hist: seq<Event>, call: Call)
    requires WellSourced(store, hist)
    ensures var o := CfGet(dates, store, call); WellSourced(o.store, hist + EventsOf(call, o.answer))
  {
    hide CopyVal, CacheableRequest, Remembered, Freshened, Rebuilt, Classify, WellSourced, CfRevalidate, CfMiss;
    var o := CfGet(dates, store, call);
    var more := EventsOf(call, o.answer);
    if !UsesStore(call) {
      WellSourcedExtends(store, store, hist, more);
      return;
    }
    var key, st, env := KeyOf(call), store - call.env.lost, call.env;
    WellSourcedExtends(store, st, hist, []);
    assert hist + [] == hist;
    if key !in st || !env.getOk || Classify(dates, st[key].meta, call.now).Unusable? {
      MissWellSourced(st, hist, call);
    } else if Classify(dates, st[key].meta, call.now).Fresh? {
      WellSourcedExtends(st, st, hist, more);
    } else {
      RevalidateWellSourced(st, hist, call);
    }
  }

  lemma MissWellSourced(store: Store, hist: seq<Event>, call: Call)
    requires WellSourced(store, hist) && UsesStore(call)
    ensures var o := CfMiss(store, call); WellSourced(o.store, hist + EventsOf(call, o.answer))
  {
    hide CopyVal, CacheableRequest, Remembered, WellSourced;
    var o := CfMiss(store, call);
    var more := EventsOf(call, o.answer);
    assert more == [Event(KeyOf(call), call.now, o.answer.traffic[0])];
    if o.answer.traffic[0].reply.status.Ok? {
      RememberedWellSourced(store, call.env, KeyOf(call), hist, o.answer.traffic[0], call.now);
    } else {
      WellSourcedExtends(store, store, hist, more);
    }
  }

  lemma RevalidateWellSourced(store: Store, hist: seq<Event>, call: Call)
    requires WellSourced(store, hist) && UsesStore(call) && KeyOf(call) in store
    ensures var o := CfRevalidate(store, call); WellSourced(o.store, hist + EventsOf(call, o.answer))
  {
    hide CopyVal, CacheableRequest, Remembered, Freshened, Rebuilt, Accepts, Lists, WellSourced, ProducedBy, AskedForEntry;
    var key, entry := KeyOf(call), store[KeyOf(call)];
    var o := CfRevalidate(store, call);
    var more := EventsOf(call, o.answer);
    var exchange := o.answer.traffic[0];
    var e := Event(key, call.now, exchange);
    WellSourcedExtends(store, store, hist, more);
    if NotModified(exchange.reply) {
      FreshenedKeepsFinalUrl(entry.meta, exchange.reply.response, call.now);
      assert (hist + more)[|hist|] == more[0] == e;
      RenewedWellSourced(store, hist + more, key, Entry(Freshened(entry.meta, exchange.reply.response, call.now), entry.body), |hist|);
    } else if exchange.reply.status.Ok? {
      assert more == [e];
      FinalUrlIsAskedForEntry(store, hist, e);
      RememberedWellSourced(store, call.env, key, hist, exchange, call.now);
    }
  }

  // Renewing the time of storage keeps body and final URL, and so the source.
  lemma RenewedWellSourced(store: Store, hist: seq<Event>, key: Key, renewed: Entry, i: nat)
    requires WellSourced(store, hist) && key in store && StampedBy(hist, i, key, renewed)
    requires renewed.body == store[key].body && renewed.meta.finalUrl == store[key].meta.finalUrl
    ensures WellSourced(store[key := renewed], hist)
  {
    hide FetchedFor, StampedBy;
    var j: nat :| ProducedBy(hist, j, key, store[key]);
    assert ProducedBy(hist, j, key, renewed);
  }

  lemma FinalUrlIsAskedForEntry(store: Store, hist: seq<Event>, e: Event)
    requires WellSourced(store, hist) && e.key in store && e.Asked() == store[e.key].meta.finalUrl
    ensures AskedForEntry(hist + [e], |hist|)
  {
    var j: nat :| ProducedBy(hist, j, e.key, store[e.key]);
    assert (hist + [e])[j] == hist[j] && (hist + [e])[|hist|] == e;
  }

  lemma FreshenedKeepsFinalUrl(meta: Meta, r: Response<Bytes>, now: int)
    ensures Freshened(meta, r, now).finalUrl == meta.finalUrl
    ensures Freshened(meta, r, now).stored == now
  {
  }

  lemma {:induction false} RunWellSourced(dates: Dates, calls: seq<Call>)
    ensures WellSourced(StoreAfter(dates, map[], calls), History(dates, calls))
  {
    hide WellSourced, CfGet, EventsOf;
    if calls == [] {
      NothingWellSourced();
    } else {
      var n := |calls| - 1;
      RunWellSourced(dates, calls[..n]);
      StepWellSourced(dates, StoreAfter(dates, map[], calls[..n]), History(dates, calls[..n]), calls[n]);
    }
  }

  lemma NothingWellSourced()
    ensures WellSourced(map[], [])
  {
  }

  // In any run from an empty store, a body served from the store is that of an earlier 200 without no-store,
  // fetched under the same partition for the same URL or for a final URL recorded for that very entry.
  lemma ServedBodiesWereFetched(dates: Dates, calls: seq<Call>, n: nat)
    requires n < |calls|
    ensures var answer := AnswerAt(dates, map[], calls, n);
            answer.source == Hit || answer.source == Revalidated ==>
              answer.status == Ok && answer.response.Some? && UsesStore(calls[n]) &&
              exists i: nat :: FetchedFor(History(dates, calls[..n]), i, KeyOf(calls[n]), answer.response.value.body)
  {
    hide CfGet, FetchedFor;
    var answer := AnswerAt(dates, map[], calls, n);
    var store := StoreAfter(dates, map[], calls[..n]);
    if answer.source == Hit || answer.source == Revalidated {
      RunWellSourced(dates, calls[..n]);
      ServedIsStored(dates, store, calls[n]);
      var key := KeyOf(calls[n]);
      var i: nat :| ProducedBy(History(dates, calls[..n]), i, key, store[key]);
    }
  }

  lemma ServedIsStored(dates: Dates, store: Store, call: Call)
    ensures var answer := CfGet(dates, store, call).answer;
            answer.source == Hit || answer.source == Revalidated ==>
              answer.status == Ok && answer.response.Some? && UsesStore(call) && KeyOf(call) in store &&
              answer.response.value.body == store[KeyOf(call)].body
    ensures CfGet(dates, store, call).answer.source == Hit ==>
              Classify(dates, store[KeyOf(call)].meta, call.now) == Fresh && CfGet(dates, store, call).answer.traffic == []
  {
    hide CacheableRequest, Remembered, Freshened, Classify;
  }

  // In any run, a hit serves an entry that some earlier call fetched or revalidated less than its lifetime
  // ago, and no entry that says no-cache.
  lemma HitsAreFresh(dates: Dates, calls: seq<Call>, n: nat)
    requires n < |calls| && AnswerAt(dates, map[], calls, n).source == Hit
    ensures UsesStore(calls[n]) && KeyOf(calls[n]) in StoreAfter(dates, map[], calls[..n])
    ensures var hist := History(dates, calls[..n]);
            var entry := StoreAfter(dates, map[], calls[..n])[KeyOf(calls[n])];
            && !Lists(entry.meta.cacheControl, "no-cache")
            && exists i: nat :: StampedBy(hist, i, KeyOf(calls[n]), entry) && calls[n].now - hist[i].now < Lifetime(dates, entry.meta)
  {
    hide CfGet, Lifetime, Lists;
    var store, hist := StoreAfter(dates, map[], calls[..n]), History(dates, calls[..n]);
    ServedIsStored(dates, store, calls[n]);
    RunWellSourced(dates, calls[..n]);
    var key := KeyOf(calls[n]);
    var entry := store[key];
    if Lists(entry.meta.cacheControl, "no-cache") {
      NoCacheIsNeverFresh(dates, entry.meta, calls[n].now);
    }
    var i: nat :| StampedBy(hist, i, key, entry);
  }

  /* ---------- the network sees nothing of it either ---------- */

  // A call that may not use the cache neither reads nor writes the store.
  lemma RejectedIsDirect(dates: Dates, store: Store, call: Call)
    requires !UsesStore(call)
    ensures CfGet(dates, store, call).store == store
    ensures CfGet(dates, store, call).answer == CfGet(dates, map[], call).answer
    ensures call.url.Some? ==> CfGet(dates, store, call).answer == DirectAnswer(call)
  {
  }

  // A hit makes no request. Any other call makes the caller's own request, or the one conditional request
  // for the stored entry, or, when rebuilding after a 304 fails, both, in this order and no more.
  lemma TrafficIsNecessary(dates: Dates, store: Store, call: Call, k: nat)
    requires call.url.Some? && k < |CfGet(dates, store, call).answer.traffic|
    ensures var request := CfGet(dates, store, call).answer.traffic[k].request;
            || request == Request(call.url.value, call.cfg)
            || (k == 0 && UsesStore(call) && KeyOf(call) in store && request == ConditionalRequest(store[KeyOf(call)].meta, call.cfg) &&
                (request.cfg.ifNoneMatch.Some? || request.cfg.ifModifiedSince.Some?))
    ensures var answer := CfGet(dates, store, call).answer;
            && answer.source != Hit && 1 <= |answer.traffic| <= 2
            && (|answer.traffic| == 2 ==> NotModified(answer.traffic[0].reply) && !call.env.rebuildOk &&
                                          answer.traffic[1].request == Request(call.url.value, call.cfg))
  {
    hide CacheableRequest, Remembered, Freshened, Rebuilt, Lifetime;
  }

  // A conditional request goes to the final URL of the 200 that the entry's body came from, in full,
  // whatever its length: a response whose final URL does not fit is not stored in the first place.
  lemma RevalidationAsksFinalUrl(dates: Dates, calls: seq<Call>, n: nat, k: nat)
    requires n < |calls| && calls[n].url.Some? && k < |AnswerAt(dates, map[], calls, n).traffic|
    requires AnswerAt(dates, map[], calls, n).traffic[k].request != Request(calls[n].url.value, calls[n].cfg)
    ensures UsesStore(calls[n]) && KeyOf(calls[n]) in StoreAfter(dates, map[], calls[..n])
    ensures var hist := History(dates, calls[..n]);
            exists i: nat :: ProducedBy(hist, i, KeyOf(calls[n]), StoreAfter(dates, map[], calls[..n])[KeyOf(calls[n])]) &&
                             AnswerAt(dates, map[], calls, n).traffic[k].request.url == hist[i].Recorded()
  {
    hide CfGet, FetchedFor;
    var store := StoreAfter(dates, map[], calls[..n]);
    TrafficIsNecessary(dates, store, calls[n], k);
    RunWellSourced(dates, calls[..n]);
    var i: nat :| ProducedBy(History(dates, calls[..n]), i, KeyOf(calls[n]), store[KeyOf(calls[n])]);
  }

  // A final URL of 2048 characters or more is one the store does not take.
  lemma LongFinalUrlIsNotStored(store: Store, env: Env, key: Key, r: Response<Bytes>, now: int)
    requires |FinalUrlOf(r, key.url)| >= HC_URL_MAX
    ensures Remembered(store, env, key, r, now) == store
  {
    hide Storable;
  }
}
