/** The cache changes when bytes move, never what is fetched (src/cached_fetch.c; sections 4.3.1 and 4.3.4
  * of RFC 9111): against pages that change, over whole runs, every answer is a page some URL had.
  */
module CacheTransparency {
  import opened CachedFetch
  import opened CacheRuns
  import opened Freshness
  import opened Wrappers

  /* ---------- pages that change ---------- */

  // What an unconditional GET for a URL answers while the n-th call of a run is made.
  type Web = (nat, string) -> Reply

  predicate IsPage(r: Reply) {
    r.status.Ok? && r.response.httpCode == 200
  }

  predicate SamePage(a: Reply, b: Reply) {
    IsPage(a) && IsPage(b) && a.response.body == b.response.body &&
    a.response.etag == b.response.etag && a.response.lastModified == b.response.lastModified
  }

  // Final URLs are never reported: every page counts as found under the URL asked for.
  ghost predicate Silent(web: Web) {
    forall n, url :: web(n, url).response.finalUrl.None?
  }

  // Final URLs are always reported, and asking for one gives that page.
  ghost predicate Reporting(web: Web) {
    forall n, url :: IsPage(web(n, url)) ==>
      web(n, url).response.finalUrl.Some? && SamePage(web(n, url), web(n, web(n, url).response.finalUrl.value))
  }

  // At one URL, the same etag means the same body; and so does the same Last-Modified date where there was
  // no etag.
  ghost predicate SoundValidators(web: Web) {
    forall m, n, url {:trigger web(m, url), web(n, url)} :: IsPage(web(m, url)) && IsPage(web(n, url)) ==>
      SameMeansSame(web(m, url).response, web(n, url).response)
  }

  predicate SameMeansSame(a: Response<Bytes>, b: Response<Bytes>) {
    || a.body == b.body
    || (if a.etag != "" then a.etag != b.etag else a.lastModified == "" || a.lastModified != b.lastModified)
  }

  ghost predicate GoodWeb(web: Web) {
    (Silent(web) || Reporting(web)) && SoundValidators(web) && forall n, url :: web(n, url).response.httpCode != 304
  }

  /* ---------- what the network may deliver ---------- */

  predicate Conditional(cfg: Config) {
    cfg.ifNoneMatch.Some? || cfg.ifModifiedSince.Some?
  }

  // Whether the page carries the validator that was sent.
  predicate Validates(cfg: Config, page: Response<Bytes>) {
    if cfg.ifNoneMatch.Some? then page.etag == cfg.ifNoneMatch.value
    else cfg.ifModifiedSince.Some? && page.lastModified == cfg.ifModifiedSince.value
  }

  predicate SameReply(a: Reply, b: Reply) {
    a.status.Ok? && b.status.Ok? && a.response.httpCode == b.response.httpCode && a.response.body == b.response.body &&
    a.response.finalUrl == b.response.finalUrl && a.response.etag == b.response.etag &&
    a.response.lastModified == b.response.lastModified
  }

  // A 304 is sent only for a page that carries the validator; if it names an etag, it is that page's.
  predicate Truthful304(r: Reply, request: Request, page: Reply) {
    NotModified(r) && IsPage(page) && Validates(request.cfg, page.response) &&
    (r.response.etag == "" || r.response.etag == page.response.etag)
  }

  // The page, a truthful 304, or any failure.
  ghost predicate Delivers(how: Request -> Reply, web: Web, n: nat) {
    forall request :: !how(request).status.Ok? || SameReply(how(request), web(n, request.url)) ||
                      Truthful304(how(request), request, web(n, request.url))
  }

  ghost predicate PlainCall(call: Call, web: Web, n: nat) {
    call.url.Some? && !Conditional(call.cfg) && Delivers(call.env.reply, web, n) && Delivers(call.env.retry, web, n)
  }

  ghost predicate PlainCalls(calls: seq<Call>, web: Web) {
    forall i {:trigger calls[i]} :: 0 <= i < |calls| ==> PlainCall(calls[i], web, i)
  }

  /* ---------- what the store holds ---------- */

  // Body and validators are those the entry's final URL had at call m.
  predicate PairedAt(web: Web, m: nat, entry: Entry) {
    var page := web(m, entry.meta.finalUrl);
    IsPage(page) && page.response.body == entry.body &&
    page.response.etag == entry.meta.etag && page.response.lastModified == entry.meta.lastModified
  }

  // Body and time of storage are those of call m, for the same entry.
  predicate CurrentAt(web: Web, calls: seq<Call>, m: nat, key: Key, entry: Entry) {
    && m < |calls| && UsesStore(calls[m]) && KeyOf(calls[m]) == key && calls[m].now == entry.meta.stored
    && IsPage(web(m, entry.meta.finalUrl)) && web(m, entry.meta.finalUrl).response.body == entry.body
  }

  ghost predicate EntryTrue(web: Web, calls: seq<Call>, key: Key, entry: Entry) {
    && (exists m: nat :: PairedAt(web, m, entry))
    && (exists m: nat :: CurrentAt(web, calls, m, key, entry))
    && (Silent(web) ==> entry.meta.finalUrl == key.url)
  }

  ghost predicate StoreTrue(store: Store, web: Web, calls: seq<Call>) {
    forall key :: key in store ==> EntryTrue(web, calls, key, store[key])
  }

  lemma StoreTrueExtends(store: Store, smaller: Store, web: Web, calls: seq<Call>, call: Call)
    requires StoreTrue(store, web, calls)
    requires forall key :: key in smaller ==> key in store && smaller[key] == store[key]
    ensures StoreTrue(smaller, web, calls + [call])
  {
    hide PairedAt;
    forall key | key in smaller ensures EntryTrue(web, calls + [call], key, smaller[key]) {
      var m: nat :| CurrentAt(web, calls, m, key, store[key]);
      assert (calls + [call])[m] == calls[m];
      assert CurrentAt(web, calls + [call], m, key, smaller[key]);
    }
  }

  // A page that was asked for under the entry's URL, or under the final URL it records, may be stored.
  lemma RememberedTrue(store: Store, env: Env, web: Web, calls: seq<Call>, n: nat, key: Key, asked: string, reply: Reply)
    requires GoodWeb(web) && StoreTrue(store, web, calls) && SameReply(reply, web(n, asked))
    requires n < |calls| && UsesStore(calls[n]) && KeyOf(calls[n]) == key
    requires asked == key.url || (key in store && asked == store[key].meta.finalUrl)
    ensures StoreTrue(Remembered(store, env, key, reply.response, calls[n].now), web, calls)
  {
    hide CopyVal, Storable, Accepts, MetaFromResponse, SoundValidators, CacheableRequest;
    var r, now := reply.response, calls[n].now;
    var meta := MetaFromResponse(r, key.url, now);
    if Storable(r.httpCode, meta, |r.body|) && env.putOk && Accepts(key, Entry(meta, r.body)) {
      StorableMeans(r.httpCode, meta, |r.body|);
      AcceptedKeepsFinalUrl(key, r, now);
      KeptHeaders(r, key.url, now);
      if Silent(web) {
        if key in store {
          assert EntryTrue(web, calls, key, store[key]);
        }
        assert asked == key.url;
      } else {
        assert SamePage(web(n, asked), web(n, meta.finalUrl));
      }
      assert PairedAt(web, n, Entry(meta, r.body));
      assert CurrentAt(web, calls, n, key, Entry(meta, r.body));
    }
  }

  // A truthful 304 means that the final URL still has the stored body.
  lemma ValidatedBodyIsCurrent(entry: Entry, web: Web, n: nat, cfg: Config, reply: Reply)
    requires GoodWeb(web) && !Conditional(cfg) && (exists m: nat :: PairedAt(web, m, entry))
    requires var request := ConditionalRequest(entry.meta, cfg); Truthful304(reply, request, web(n, request.url))
    ensures IsPage(web(n, entry.meta.finalUrl)) && web(n, entry.meta.finalUrl).response.body == entry.body
    ensures reply.response.etag != "" && reply.response.etag != entry.meta.etag ==>
              PairedAt(web, n, entry.(meta := entry.meta.(etag := reply.response.etag)))
  {
    var m: nat :| PairedAt(web, m, entry);
    assert SameMeansSame(web(m, entry.meta.finalUrl).response, web(n, entry.meta.finalUrl).response);
  }

  lemma RenewedTrue(web: Web, calls: seq<Call>, n: nat, key: Key, entry: Entry, reply: Reply)
    requires GoodWeb(web) && EntryTrue(web, calls, key, entry)
    requires n < |calls| && UsesStore(calls[n]) && KeyOf(calls[n]) == key && !Conditional(calls[n].cfg)
    requires var request := ConditionalRequest(entry.meta, calls[n].cfg); Truthful304(reply, request, web(n, request.url))
    ensures EntryTrue(web, calls, key, Entry(Freshened(entry.meta, reply.response, calls[n].now), entry.body))
  {
    hide SoundValidators, CacheableRequest;
    var renewed := Entry(Freshened(entry.meta, reply.response, calls[n].now), entry.body);
    ValidatedBodyIsCurrent(entry, web, n, calls[n].cfg, reply);
    assert CurrentAt(web, calls, n, key, renewed);
    if reply.response.etag == "" || reply.response.etag == entry.meta.etag {
      var m: nat :| PairedAt(web, m, entry);
      assert PairedAt(web, m, renewed);
    } else {
      assert PairedAt(web, n, renewed);
    }
  }

  /* ---------- what the caller gets ---------- */

  predicate IsAnswer(answer: Answer, page: Reply) {
    answer.response.Some? && page.status.Ok? && answer.response.value.httpCode == page.response.httpCode &&
    answer.response.value.body == page.response.body
  }

  // A failure is the network's. A fetched answer is what its URL has now. A revalidated answer is the page
  // its URL has now. A hit is the page its URL had at an earlier call for the same entry, when that was
  // fetched or revalidated, less than a year ago.
  ghost predicate AnswerTrue(answer: Answer, web: Web, calls: seq<Call>, n: nat)
    requires n < |calls|
  {
    if !answer.status.Ok? then
      answer.traffic != [] && answer.traffic[|answer.traffic| - 1].reply.status == answer.status
    else
      match answer.source
      case Refused => false
      case Fetched => answer.traffic != [] && IsAnswer(answer, web(n, answer.traffic[|answer.traffic| - 1].request.url))
      case Revalidated => NamesUrl(answer) && IsAnswer(answer, web(n, answer.response.value.finalUrl.value))
      case Hit =>
        NamesUrl(answer) && exists m: nat :: m < n && HitFrom(answer, web, calls, n, m)
  }

  predicate NamesUrl(answer: Answer) {
    answer.response.Some? && answer.response.value.finalUrl.Some? && answer.response.value.httpCode == 200
  }

  predicate HitFrom(answer: Answer, web: Web, calls: seq<Call>, n: nat, m: nat)
    requires m < n < |calls| && NamesUrl(answer)
  {
    && UsesStore(calls[m]) && UsesStore(calls[n]) && KeyOf(calls[m]) == KeyOf(calls[n])
    && calls[n].now - calls[m].now < HC_MAX_AGE_CAP
    && IsAnswer(answer, web(m, answer.response.value.finalUrl.value))
  }

  lemma RebuiltParts(meta: Meta, body: Bytes)
    ensures Rebuilt(meta, body).httpCode == 200 && Rebuilt(meta, body).body == body
    ensures Rebuilt(meta, body).finalUrl == Some(meta.finalUrl)
  {
  }

  lemma PlainReply(how: Request -> Reply, request: Request, web: Web, n: nat)
    requires Delivers(how, web, n) && !Conditional(request.cfg) && how(request).status.Ok?
    ensures SameReply(how(request), web(n, request.url))
  {
  }

  lemma RevalidateTransparent(store: Store, calls: seq<Call>, n: nat, web: Web)
    requires GoodWeb(web) && n < |calls| && PlainCall(calls[n], web, n) && StoreTrue(store, web, calls)
    requires UsesStore(calls[n]) && KeyOf(calls[n]) in store
    ensures var o := CfRevalidate(store, calls[n]);
            AnswerTrue(o.answer, web, calls, n) && StoreTrue(o.store, web, calls)
  {
    hide CacheableRequest, Remembered, CopyVal, Freshened, Rebuilt, Accepts, SoundValidators, PairedAt, CurrentAt;
    var call := calls[n];
    var key, entry := KeyOf(call), store[KeyOf(call)];
    var request := ConditionalRequest(entry.meta, call.cfg);
    var reply := call.env.reply(request);
    assert EntryTrue(web, calls, key, entry);
    if NotModified(reply) {
      assert Truthful304(reply, request, web(n, request.url));
      var meta := Freshened(entry.meta, reply.response, call.now);
      ValidatedBodyIsCurrent(entry, web, n, call.cfg, reply);
      RenewedTrue(web, calls, n, key, entry, reply);
      FreshenedKeepsFinalUrl(entry.meta, reply.response, call.now);
      RebuiltParts(meta, entry.body);
      var again := Request(call.url.value, call.cfg);
      if call.env.retry(again).status.Ok? {
        PlainReply(call.env.retry, again, web, n);
      }
    } else if reply.status.Ok? {
      assert SameReply(reply, web(n, request.url));
      RememberedTrue(store, call.env, web, calls, n, key, request.url, reply);
    }
  }

  lemma MissTransparent(store: Store, calls: seq<Call>, n: nat, web: Web)
    requires GoodWeb(web) && n < |calls| && PlainCall(calls[n], web, n) && StoreTrue(store, web, calls)
    requires UsesStore(calls[n])
    ensures var o := CfMiss(store, calls[n]);
            AnswerTrue(o.answer, web, calls, n) && StoreTrue(o.store, web, calls)
  {
    hide CacheableRequest, Remembered, StoreTrue, GoodWeb, Delivers;
    var call := calls[n];
    var request := Request(call.url.value, call.cfg);
    var reply := call.env.reply(request);
    if reply.status.Ok? {
      PlainReply(call.env.reply, request, web, n);
      RememberedTrue(store, call.env, web, calls, n, KeyOf(call), request.url, reply);
    }
  }

  lemma DirectTransparent(calls: seq<Call>, n: nat, web: Web)
    requires n < |calls| && PlainCall(calls[n], web, n)
    ensures AnswerTrue(DirectAnswer(calls[n]), web, calls, n)
  {
    var call := calls[n];
    var request := Request(call.url.value, call.cfg);
    if call.env.reply(request).status.Ok? {
      PlainReply(call.env.reply, request, web, n);
    }
  }

  lemma HitTransparent(dates: Dates, store: Store, calls: seq<Call>, n: nat, web: Web)
    requires n + 1 == |calls| && UsesStore(calls[n]) && KeyOf(calls[n]) in store && calls[n].env.rebuildOk
    requires StoreTrue(store, web, calls[..n])
    requires Classify(dates, store[KeyOf(calls[n])].meta, calls[n].now) == Fresh
    ensures AnswerTrue(CfHit(store, calls[n]).answer, web, calls, n)
  {
    hide CacheableRequest, PairedAt, Rebuilt, Lifetime;
    var key, entry := KeyOf(calls[n]), store[KeyOf(calls[n])];
    FreshnessExpires(dates, entry.meta, calls[n].now, calls[n].now);
    RebuiltParts(entry.meta, entry.body);
    assert EntryTrue(web, calls[..n], key, entry);
    var m: nat :| CurrentAt(web, calls[..n], m, key, entry);
    assert calls[..n][m] == calls[m];
    assert HitFrom(CfHit(store, calls[n]).answer, web, calls, n, m);
  }

  lemma CallTransparent(dates: Dates, store: Store, calls: seq<Call>, n: nat, web: Web)
    requires GoodWeb(web) && n + 1 == |calls| && PlainCall(calls[n], web, n) && StoreTrue(store, web, calls[..n])
    ensures var o := CfGet(dates, store, calls[n]);
            AnswerTrue(o.answer, web, calls, n) && StoreTrue(o.store, web, calls)
  {
    hide CacheableRequest, CfRevalidate, CfMiss, Classify, GoodWeb, StoreTrue, AnswerTrue;
    var call := calls[n];
    DirectTransparent(calls, n, web);
    assert calls == calls[..n] + [call];
    StoreTrueExtends(store, store, web, calls[..n], call);
    if UsesStore(call) {
      var key, st := KeyOf(call), store - call.env.lost;
      StoreTrueExtends(store, st, web, calls[..n], call);
      if key in st && call.env.getOk && Classify(dates, st[key].meta, call.now).Revalidate? {
        RevalidateTransparent(st, calls, n, web);
      } else if key in st && call.env.getOk && Classify(dates, st[key].meta, call.now).Fresh? {
        if call.env.rebuildOk {
          StoreTrueShrinks(store, st, web, calls[..n]);
          HitTransparent(dates, st, calls, n, web);
        }
      } else {
        MissTransparent(st, calls, n, web);
      }
    }
  }

  lemma StoreTrueShrinks(store: Store, smaller: Store, web: Web, calls: seq<Call>)
    requires StoreTrue(store, web, calls)
    requires forall key :: key in smaller ==> key in store && smaller[key] == store[key]
    ensures StoreTrue(smaller, web, calls)
  {
    hide EntryTrue;
  }

  lemma {:induction false} RunStaysTrue(dates: Dates, calls: seq<Call>, web: Web)
    requires GoodWeb(web) && PlainCalls(calls, web)
    ensures StoreTrue(StoreAfter(dates, map[], calls), web, calls)
    decreases |calls|
  {
    hide GoodWeb, CfGet, PlainCall, EntryTrue;
    if calls != [] {
      var n := |calls| - 1;
      RunStaysTrue(dates, calls[..n], web);
      CallTransparent(dates, StoreAfter(dates, map[], calls[..n]), calls, n, web);
    }
  }

  // In any run, on pages that change between any two calls, whatever is evicted, whatever fails and whenever
  // the origin prefers a 304: every answer is a page that its URL has, or, for a hit, had when the entry was
  // last fetched or revalidated.
  lemma CacheIsTransparent(dates: Dates, calls: seq<Call>, n: nat, web: Web)
    requires GoodWeb(web) && n < |calls| && PlainCalls(calls, web)
    ensures AnswerTrue(AnswerAt(dates, map[], calls, n), web, calls[..n + 1], n)
  {
    hide GoodWeb, CfGet, PlainCall, StoreTrue, AnswerTrue;
    var run := calls[..n + 1];
    assert run[..n] == calls[..n] && PlainCall(calls[n], web, n);
    RunStaysTrue(dates, calls[..n], web);
    CallTransparent(dates, StoreAfter(dates, map[], calls[..n]), run, n, web);
  }

  // In particular a revalidated answer, built from the stored body, is what a full GET of its URL would have
  // returned instead of the 304.
  lemma RevalidatedIsFullGet(dates: Dates, calls: seq<Call>, n: nat, web: Web)
    requires GoodWeb(web) && n < |calls| && PlainCalls(calls, web)
    ensures var answer := AnswerAt(dates, map[], calls, n);
            answer.source == Revalidated ==>
              NamesUrl(answer) && IsPage(web(n, answer.response.value.finalUrl.value)) &&
              IsAnswer(answer, web(n, answer.response.value.finalUrl.value))
  {
    CacheIsTransparent(dates, calls, n, web);
    ServedIsStored(dates, StoreAfter(dates, map[], calls[..n]), calls[n]);
    hide CfGet;
  }

  /* ---------- pages that stay ---------- */

  ghost predicate Unchanging(web: Web) {
    forall m, n, url :: web(m, url) == web(n, url)
  }

  // The page of the entry's URL and that of its final URL are the stored one.
  ghost predicate EntrySteady(web: Web, key: Key, entry: Entry) {
    && IsPage(web(0, key.url)) && web(0, key.url).response.body == entry.body
    && IsPage(web(0, entry.meta.finalUrl)) && web(0, entry.meta.finalUrl).response.body == entry.body
    && (Silent(web) ==> entry.meta.finalUrl == key.url)
  }

  ghost predicate StoreSteady(store: Store, web: Web) {
    forall key :: key in store ==> EntrySteady(web, key, store[key])
  }

  lemma RememberedSteady(store: Store, env: Env, web: Web, key: Key, asked: string, reply: Reply, now: int)
    requires GoodWeb(web) && StoreSteady(store, web) && SameReply(reply, web(0, asked))
    requires asked == key.url || (key in store && asked == store[key].meta.finalUrl)
    ensures StoreSteady(Remembered(store, env, key, reply.response, now), web)
  {
    hide CopyVal, Storable, Accepts, MetaFromResponse, SoundValidators;
    var r := reply.response;
    var meta := MetaFromResponse(r, key.url, now);
    if Storable(r.httpCode, meta, |r.body|) && env.putOk && Accepts(key, Entry(meta, r.body)) {
      StorableMeans(r.httpCode, meta, |r.body|);
      AcceptedKeepsFinalUrl(key, r, now);
      assert key in store ==> EntrySteady(web, key, store[key]);
      assert SamePage(web(0, asked), web(0, meta.finalUrl));
      assert EntrySteady(web, key, Entry(meta, r.body));
    }
  }

  lemma UnchangingRevalidate(store: Store, call: Call, web: Web)
    requires GoodWeb(web) && PlainCall(call, web, 0) && StoreSteady(store, web) && UsesStore(call) && KeyOf(call) in store
    ensures var o := CfRevalidate(store, call);
            StoreSteady(o.store, web) && (o.answer.status.Ok? ==> IsAnswer(o.answer, web(0, call.url.value)))
  {
    hide CacheableRequest, Remembered, CopyVal, Freshened, Rebuilt, Put, GoodWeb, EntrySteady, StoreSteady;
    var key, entry := KeyOf(call), store[KeyOf(call)];
    var request := ConditionalRequest(entry.meta, call.cfg);
    var reply := call.env.reply(request);
    SteadyParts(store, web, key);
    if NotModified(reply) {
      RenewedSteady(store, call.env, web, key, reply.response, call.now);
      RebuiltParts(Freshened(entry.meta, reply.response, call.now), entry.body);
      var again := Request(call.url.value, call.cfg);
      if call.env.retry(again).status.Ok? {
        PlainReply(call.env.retry, again, web, 0);
      }
    } else if reply.status.Ok? {
      assert SameReply(reply, web(0, request.url));
      RememberedSteady(store, call.env, web, key, request.url, reply, call.now);
    }
  }

  lemma SteadyParts(store: Store, web: Web, key: Key)
    requires StoreSteady(store, web) && key in store
    ensures IsPage(web(0, key.url)) && web(0, key.url).response.body == store[key].body
    ensures IsPage(web(0, store[key].meta.finalUrl)) && web(0, store[key].meta.finalUrl).response.body == store[key].body
  {
    assert EntrySteady(web, key, store[key]);
  }

  lemma RenewedSteady(store: Store, env: Env, web: Web, key: Key, r: Response<Bytes>, now: int)
    requires StoreSteady(store, web) && key in store
    ensures StoreSteady(Put(store, env, key, Entry(Freshened(store[key].meta, r, now), store[key].body)), web)
  {
    hide Freshened, Accepts;
    FreshenedKeepsFinalUrl(store[key].meta, r, now);
    assert EntrySteady(web, key, store[key]);
    assert EntrySteady(web, key, Entry(Freshened(store[key].meta, r, now), store[key].body));
  }

  lemma UnchangingStep(dates: Dates, store: Store, call: Call, web: Web)
    requires GoodWeb(web) && PlainCall(call, web, 0) && StoreSteady(store, web)
    ensures var o := CfGet(dates, store, call);
            StoreSteady(o.store, web) && (o.answer.status.Ok? ==> IsAnswer(o.answer, web(0, call.url.value)))
  {
    hide CacheableRequest, CfRevalidate, Classify, GoodWeb, Remembered, Rebuilt, Delivers;
    var request := Request(call.url.value, call.cfg);
    var reply := call.env.reply(request);
    if reply.status.Ok? {
      PlainReply(call.env.reply, request, web, 0);
    }
    if UsesStore(call) {
      var key, st := KeyOf(call), store - call.env.lost;
      assert StoreSteady(st, web);
      if reply.status.Ok? {
        RememberedSteady(st, call.env, web, key, request.url, reply, call.now);
      }
      if key in st {
        RebuiltParts(st[key].meta, st[key].body);
        assert EntrySteady(web, key, st[key]);
        UnchangingRevalidate(st, call, web);
      }
    }
  }

  lemma {:induction false} UnchangingRun(dates: Dates, calls: seq<Call>, web: Web)
    requires GoodWeb(web) && Unchanging(web) && PlainCalls(calls, web)
    ensures StoreSteady(StoreAfter(dates, map[], calls), web)
    decreases |calls|
  {
    hide GoodWeb, CfGet, EntrySteady;
    if calls != [] {
      var n := |calls| - 1;
      UnchangingRun(dates, calls[..n], web);
      SameDeliveries(calls[n], web, n);
      UnchangingStep(dates, StoreAfter(dates, map[], calls[..n]), calls[n], web);
    }
  }

  lemma SameDeliveries(call: Call, web: Web, n: nat)
    requires Unchanging(web) && PlainCall(call, web, n)
    ensures PlainCall(call, web, 0)
  {
    forall request: Request ensures web(n, request.url) == web(0, request.url) {
    }
  }

  // If pages do not change, every answer that is no failure is that of a direct fetch of the call's own URL.
  lemma UnchangingPagesAreDirect(dates: Dates, calls: seq<Call>, n: nat, web: Web)
    requires GoodWeb(web) && Unchanging(web) && n < |calls| && PlainCalls(calls, web)
    ensures var answer := AnswerAt(dates, map[], calls, n);
            calls[n].url.Some? && (answer.status.Ok? ==> IsAnswer(answer, web(n, calls[n].url.value)))
  {
    hide GoodWeb, CfGet, EntrySteady;
    assert PlainCall(calls[n], web, n);
    UnchangingRun(dates, calls[..n], web);
    SameDeliveries(calls[n], web, n);
    UnchangingStep(dates, StoreAfter(dates, map[], calls[..n]), calls[n], web);
  }

  /* ---------- a hit repeats the response ---------- */

  // A miss that was stored and then a fresh hit: the hit repeats the response without touching the network,
  // header by header, except that it names its final URL and says it came from the cache.
  lemma HitRepeatsResponse(dates: Dates, store: Store, first: Call, second: Call)
    requires UsesStore(first) && UsesStore(second) && KeyOf(second) == KeyOf(first)
    requires KeyOf(first) !in store && first.env.putOk
    requires var reply := first.env.reply(Request(first.url.value, first.cfg));
             var meta := MetaFromResponse(reply.response, first.url.value, first.now);
             && reply.status.Ok? && Storable(reply.response.httpCode, meta, |reply.response.body|)
             && Accepts(KeyOf(first), Entry(meta, reply.response.body))
             && (reply.response.contentType.Some? ==> 0 < |reply.response.contentType.value| < HC_TYPE_MAX)
             && Classify(dates, meta, second.now) == Fresh
    requires KeyOf(second) !in second.env.lost && second.env.getOk && second.env.rebuildOk
    ensures var r := first.env.reply(Request(first.url.value, first.cfg)).response;
            CfGet(dates, CfGet(dates, store, first).store, second).answer ==
              Answer(Hit, Ok, Some(r.(finalUrl := Some(FinalUrlOf(r, first.url.value)), tlsVersion := Some("cache"), rest := None)), [])
  {
    hide CacheableRequest, CfRevalidate, Classify, Storable;
    var r := first.env.reply(Request(first.url.value, first.cfg)).response;
    var url := first.url.value;
    var meta := MetaFromResponse(r, url, first.now);
    StorableMeans(r.httpCode, meta, |r.body|);
    KeptInFull(KeyOf(first), r, first.now);
    hide MetaFromResponse, CopyVal, Rebuilt, Accepts;
    var after := CfGet(dates, store, first).store;
    assert after == CfMiss(store - first.env.lost, first).store;
    assert after[KeyOf(first)] == Entry(meta, r.body);
    assert CfGet(dates, after, second) == CfHit(after - second.env.lost, second);
  }

  lemma KeptInFull(key: Key, r: Response<Bytes>, now: int)
    requires Accepts(key, Entry(MetaFromResponse(r, key.url, now), r.body)) && r.httpCode == 200
    requires r.contentType.Some? ==> 0 < |r.contentType.value| < HC_TYPE_MAX
    ensures Rebuilt(MetaFromResponse(r, key.url, now), r.body) ==
            r.(finalUrl := Some(FinalUrlOf(r, key.url)), tlsVersion := Some("cache"), rest := None)
  {
    AcceptedKeepsFinalUrl(key, r, now);
    KeptHeaders(r, key.url, now);
  }
}
