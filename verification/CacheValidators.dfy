/** Where validators travel (src/cached_fetch.c): an etag is a fingerprint of the resource that gave it, and
  * must not be sent to another URL. Exactly when that holds, over whole runs.
  */
module CacheValidators {
  import opened CachedFetch
  import opened CacheProvenance
  import opened CacheRuns
  import opened Freshness
  import opened Wrappers

  // A response that came from elsewhere than the cache takes it to be from: a redirected 304, or a redirected
  // 200 that does not report where it came from.
  predicate Strays(e: Event) {
    e.exchange.Hop() != TakenFrom(e)
  }

  // The request was sent to the URL that gave its validator, and to no other.
  ghost predicate ReachesOnly(x: Exchange, home: string) {
    forall url :: x.Reaches(url) ==> url == home
  }

  lemma ReachesOnlyIff(x: Exchange, e: Event)
    requires x.request.url == TakenFrom(e)
    ensures ReachesOnly(x, e.exchange.Hop()) <==> !Strays(e) && !x.Redirected()
  {
    assert x.Reaches(x.request.url);
    if url :| url in x.reply.via && url != x.request.url {
      assert x.Reaches(url);
    }
  }

  // The answer that last set the entry's etag, or its date, as an event of the run's history.
  ghost predicate GaveEtag(dates: Dates, calls: seq<Call>, key: Key, e: Event) {
    key in TagsAfter(dates, calls) && TagsAfter(dates, calls)[key].etagBy < |History(dates, calls)| &&
    e == History(dates, calls)[TagsAfter(dates, calls)[key].etagBy]
  }

  ghost predicate GaveDate(dates: Dates, calls: seq<Call>, key: Key, e: Event) {
    key in TagsAfter(dates, calls) && TagsAfter(dates, calls)[key].dateBy < |History(dates, calls)| &&
    e == History(dates, calls)[TagsAfter(dates, calls)[key].dateBy]
  }

  lemma ConditionalRequestOfEntry(dates: Dates, calls: seq<Call>, n: nat, k: nat)
    requires n < |calls| && calls[n].url.Some? && k < |AnswerAt(dates, map[], calls, n).traffic|
    requires AnswerAt(dates, map[], calls, n).traffic[k].request != Request(calls[n].url.value, calls[n].cfg)
    ensures UsesStore(calls[n])
    ensures var store, key := StoreAfter(dates, map[], calls[..n]), KeyOf(calls[n]);
            && key in store && AnswerAt(dates, map[], calls, n).traffic[k].request == ConditionalRequest(store[key].meta, calls[n].cfg)
            && key in TagsAfter(dates, calls[..n])
            && TagTrue(History(dates, calls[..n]), key, store[key].meta, TagsAfter(dates, calls[..n])[key])
  {
    hide CfGet, TagTrue;
    RunTagsTrue(dates, calls[..n]);
    TrafficIsNecessary(dates, StoreAfter(dates, map[], calls[..n]), calls[n], k);
  }

  // In any run, an etag that the cache sends was last given to the entry by an answer of the history, and it
  // reaches the URL that gave it and no other if and only if that answer did not stray and the request is
  // not redirected.
  lemma EtagStaysHomeIff(dates: Dates, calls: seq<Call>, n: nat, k: nat)
    requires n < |calls| && calls[n].url.Some? && k < |AnswerAt(dates, map[], calls, n).traffic|
    requires calls[n].cfg.ifNoneMatch.None? && AnswerAt(dates, map[], calls, n).traffic[k].request.cfg.ifNoneMatch.Some?
    ensures UsesStore(calls[n])
    ensures var x := AnswerAt(dates, map[], calls, n).traffic[k];
            exists e :: GaveEtag(dates, calls[..n], KeyOf(calls[n]), e)
                        && e.key == KeyOf(calls[n]) && e.Response().etag == x.request.cfg.ifNoneMatch.value
                        && (ReachesOnly(x, e.exchange.Hop()) <==> !Strays(e) && !x.Redirected())
  {
    hide CfGet, ReachesOnly, Strays, TakenFrom;
    ConditionalRequestOfEntry(dates, calls, n, k);
    var key := KeyOf(calls[n]);
    var e := History(dates, calls[..n])[TagsAfter(dates, calls[..n])[key].etagBy];
    ReachesOnlyIff(AnswerAt(dates, map[], calls, n).traffic[k], e);
    assert GaveEtag(dates, calls[..n], key, e);
  }

  // The same for dates of modification.
  lemma DateStaysHomeIff(dates: Dates, calls: seq<Call>, n: nat, k: nat)
    requires n < |calls| && calls[n].url.Some? && k < |AnswerAt(dates, map[], calls, n).traffic|
    requires calls[n].cfg.ifModifiedSince.None? && AnswerAt(dates, map[], calls, n).traffic[k].request.cfg.ifModifiedSince.Some?
    ensures UsesStore(calls[n])
    ensures var x := AnswerAt(dates, map[], calls, n).traffic[k];
            exists e :: GaveDate(dates, calls[..n], KeyOf(calls[n]), e)
                        && e.key == KeyOf(calls[n]) && Is200(e) && e.Response().lastModified == x.request.cfg.ifModifiedSince.value
                        && (ReachesOnly(x, e.exchange.Hop()) <==> !Strays(e) && !x.Redirected())
  {
    hide CfGet, ReachesOnly, Strays, TakenFrom;
    ConditionalRequestOfEntry(dates, calls, n, k);
    var key := KeyOf(calls[n]);
    var e := History(dates, calls[..n])[TagsAfter(dates, calls[..n])[key].dateBy];
    ReachesOnlyIff(AnswerAt(dates, map[], calls, n).traffic[k], e);
    assert GaveDate(dates, calls[..n], key, e);
  }

  // A redirected 200 strays exactly when it does not report its last hop, and a 304 exactly when it comes
  // from another URL than it was asked of.
  lemma StraysIff(e: Event)
    requires Is200(e) || NotModified(e.exchange.reply)
    ensures Is200(e) && e.Response().finalUrl.Some? ==> (Strays(e) <==> e.Response().finalUrl.value != e.exchange.Hop())
    ensures Is200(e) && e.Response().finalUrl.None? ==> (Strays(e) <==> e.exchange.Hop() != e.key.url)
    ensures !Is200(e) ==> (Strays(e) <==> e.exchange.Hop() != e.exchange.request.url)
    ensures !Is200(e) && Strays(e) ==> e.exchange.Redirected()
  {
    if !Is200(e) && Strays(e) {
      assert e.exchange.Hop() in e.exchange.reply.via;
    }
  }

  ghost predicate NoneStrays(hist: seq<Event>) {
    forall e :: e in hist ==> !Strays(e)
  }

  // So with no straying answer so far, every conditional request that is not redirected keeps its validators
  // at the URL that gave them.
  lemma ValidatorsStayHome(dates: Dates, calls: seq<Call>, n: nat, k: nat)
    requires n < |calls| && calls[n].url.Some? && NoneStrays(History(dates, calls[..n]))
    requires calls[n].cfg.ifNoneMatch.None? && calls[n].cfg.ifModifiedSince.None?
    requires k < |AnswerAt(dates, map[], calls, n).traffic| && !AnswerAt(dates, map[], calls, n).traffic[k].Redirected()
    ensures var x := AnswerAt(dates, map[], calls, n).traffic[k];
            && (x.request.cfg.ifNoneMatch.Some? ==>
                  UsesStore(calls[n]) &&
                  exists e :: GaveEtag(dates, calls[..n], KeyOf(calls[n]), e)
                              && e.Response().etag == x.request.cfg.ifNoneMatch.value && ReachesOnly(x, e.exchange.Hop()))
            && (x.request.cfg.ifModifiedSince.Some? ==>
                  UsesStore(calls[n]) &&
                  exists e :: GaveDate(dates, calls[..n], KeyOf(calls[n]), e)
                              && e.Response().lastModified == x.request.cfg.ifModifiedSince.value && ReachesOnly(x, e.exchange.Hop()))
  {
    hide CfGet, ReachesOnly, Strays;
    var x := AnswerAt(dates, map[], calls, n).traffic[k];
    if x.request.cfg.ifNoneMatch.Some? {
      EtagStaysHomeIff(dates, calls, n, k);
    }
    if x.request.cfg.ifModifiedSince.Some? {
      DateStaysHomeIff(dates, calls, n, k);
    }
  }

  /* ---------- a fetcher that never reports the final URL ---------- */

  ghost predicate Silent(how: Request -> Reply) {
    forall request :: how(request).response.finalUrl.None?
  }

  ghost predicate RecordsAsked(store: Store) {
    forall key :: key in store ==> store[key].meta.finalUrl == key.url
  }

  lemma RememberedAsked(store: Store, env: Env, key: Key, r: Response<Bytes>, now: int)
    requires RecordsAsked(store) && r.finalUrl.None?
    ensures RecordsAsked(Remembered(store, env, key, r, now))
  {
    hide Storable, MetaFromResponse, Accepts;
    var meta := MetaFromResponse(r, key.url, now);
    if Accepts(key, Entry(meta, r.body)) {
      AcceptedKeepsFinalUrl(key, r, now);
    }
  }

  // With such a fetcher, in any run, every entry records the URL it was asked for, so each conditional
  // request goes to the URL of the call itself.
  lemma {:induction false} SilentFetcherRecordsAsked(dates: Dates, calls: seq<Call>)
    requires forall call :: call in calls ==> Silent(call.env.reply) && Silent(call.env.retry)
    ensures RecordsAsked(StoreAfter(dates, map[], calls))
    decreases |calls|
  {
    hide CacheableRequest, Remembered, Freshened, Rebuilt, Classify, Accepts;
    if calls != [] {
      var call, before := calls[|calls| - 1], calls[..|calls| - 1];
      SilentFetcherRecordsAsked(dates, before);
      var store := StoreAfter(dates, map[], before);
      if UsesStore(call) {
        var key, st := KeyOf(call), store - call.env.lost;
        var request := Request(call.url.value, call.cfg);
        RememberedAsked(st, call.env, key, call.env.reply(request).response, call.now);
        if key in st {
          var cond := ConditionalRequest(st[key].meta, call.cfg);
          RememberedAsked(st, call.env, key, call.env.reply(cond).response, call.now);
          FreshenedKeepsFinalUrl(st[key].meta, call.env.reply(cond).response, call.now);
        }
      }
    }
  }
}
