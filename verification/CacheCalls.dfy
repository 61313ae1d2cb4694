/** One call of the cache in the terms its callers know (src/cached_fetch.c, include/cached_fetch.h): which
  * requests may touch the store, and what each kind of call asks, answers and stores.
  */
module CacheCalls {
  import opened CachedFetch
  import opened Freshness
  import opened Wrappers

  /* ---------- who may use the store ---------- */

  // A request that is not worth sharing: with credentials, for a range of bytes, by an overlay network, or
  // not for an https URL of less than 2048 characters.
  predicate NotShared(cfg: Config, url: string) {
    || (cfg.username.Some? && cfg.username.value != "")
    || cfg.rangeStart >= 0
    || cfg.allowOverlayHttp
    || |url| < 8 || url[..8] != "https://" || |url| >= 2048
  }

  // A call that has a store to use, and a site to use it for.
  predicate HasStore(call: Call) {
    call.env.storeOpen && call.partition.Some? && call.partition.value != ""
  }

  predicate OnlyAsks(answer: Answer, x: Exchange) {
    answer == Answer(Fetched, x.reply.status, Some(x.reply.response), [x])
  }

  // The call's own request, as it is.
  function OwnExchange(call: Call): Exchange
    requires call.url.Some?
  {
    var request := Request(call.url.value, call.cfg);
    Exchange(request, call.env.reply(request))
  }

  // A request that may not be shared is the direct fetch, and neither reads nor writes the store; so is any
  // call without a store or a site.
  lemma NotSharedIsDirect(dates: Dates, store: Store, call: Call)
    requires call.url.Some? && (NotShared(call.cfg, call.url.value) || !HasStore(call))
    ensures CfGet(dates, store, call).store == store
    ensures OnlyAsks(CfGet(dates, store, call).answer, OwnExchange(call))
  {
  }

  // A call that may share what is stored, and the entry it would find.
  predicate Shares(call: Call) {
    call.url.Some? && HasStore(call) && !NotShared(call.cfg, call.url.value)
  }

  lemma SharesUsesStore(call: Call)
    requires Shares(call)
    ensures UsesStore(call) && KeyOf(call) == Key(call.partition.value, call.url.value)
  {
  }

  predicate Finds(store: Store, call: Call, entry: Entry)
    requires Shares(call)
  {
    var key := Key(call.partition.value, call.url.value);
    key in store && key !in call.env.lost && store[key] == entry && call.env.getOk
  }

  /* ---------- what is served ---------- */

  // The 200 that an entry with these metadata is served as.
  function Served(m: Meta, body: Bytes): Response<Bytes> {
    Response(200, body, Some(m.finalUrl), if m.contentType == "" then None else Some(m.contentType), Some("cache"),
             m.etag, m.lastModified, m.cacheControl, m.expires, m.date, None)
  }

  // Any other call that finds a fresh entry is a hit: the entry is served, and nothing is asked or written.
  lemma FreshEntryIsHit(dates: Dates, store: Store, call: Call, entry: Entry)
    requires Shares(call) && Finds(store, call, entry) && Classify(dates, entry.meta, call.now) == Fresh && call.env.rebuildOk
    ensures CfGet(dates, store, call).answer == Answer(Hit, Ok, Some(Served(entry.meta, entry.body)), [])
    ensures CfGet(dates, store, call).store == store - call.env.lost
  {
    hide CacheableRequest, Classify, CfRevalidate, CfMiss;
    SharesUsesStore(call);
  }

  // If the response cannot be rebuilt, the call is the direct fetch after all.
  lemma UnrebuiltHitIsDirect(dates: Dates, store: Store, call: Call, entry: Entry)
    requires Shares(call) && Finds(store, call, entry) && Classify(dates, entry.meta, call.now) == Fresh && !call.env.rebuildOk
    ensures OnlyAsks(CfGet(dates, store, call).answer, OwnExchange(call))
    ensures CfGet(dates, store, call).store == store - call.env.lost
  {
    hide CacheableRequest, Classify, CfRevalidate, CfMiss;
    SharesUsesStore(call);
  }

  /* ---------- what is stored ---------- */

  predicate OneLine(s: string) {
    forall i :: 0 <= i < |s| ==> s[i] != '\r' && s[i] != '\n'
  }

  // What the store can write under a key.
  predicate Writable(key: Key, m: Meta, body: Bytes) {
    && OneLine(key.partition) && |key.partition| <= 2048 && OneLine(key.url) && |key.url| <= 2048
    && OneLine(m.finalUrl) && m.finalUrl != "" && OneLine(m.contentType) && OneLine(m.etag) && OneLine(m.lastModified)
    && OneLine(m.cacheControl) && OneLine(m.expires) && OneLine(m.date) && |body| <= 8388608
  }

  lemma WritableIff(key: Key, m: Meta, body: Bytes)
    ensures Accepts(key, Entry(m, body)) <==> Writable(key, m, body)
  {
    assert forall s: string :: HasNl(s) <==> !OneLine(s);
  }

  // The metadata of a response to a request for `url`: a field that is too long is dropped.
  function Recorded(r: Response<Bytes>, url: string, now: int): Meta {
    var final := if r.finalUrl.Some? then r.finalUrl.value else url;
    Meta(if |final| < 2048 then final else "",
         if r.contentType.Some? && |r.contentType.value| < 128 then r.contentType.value else "",
         r.etag, r.lastModified, r.cacheControl, r.expires, r.date, now)
  }

  // A response that may be reused: a 200 of 8 MiB at most, without no-store, that has something to reuse it by.
  ghost predicate Reusable(r: Response<Bytes>) {
    && r.httpCode == 200 && |r.body| <= 8388608 && !Lists(r.cacheControl, "no-store")
    && (r.etag != "" || r.lastModified != "" || r.expires != "" || exists n: nat :: n > 0 && SaysMaxAge(r.cacheControl, n))
  }

  // The store after a response for this key was fetched.
  ghost function StoredAfter(st: Store, env: Env, key: Key, reply: Reply, now: int): Store {
    var m := Recorded(reply.response, key.url, now);
    if reply.status.Ok? && Reusable(reply.response) && Writable(key, m, reply.response.body) && env.putOk then
      st[key := Entry(m, reply.response.body)]
    else st
  }

  lemma RememberedIsStored(st: Store, env: Env, key: Key, reply: Reply, now: int)
    requires reply.status.Ok?
    ensures Remembered(st, env, key, reply.response, now) == StoredAfter(st, env, key, reply, now)
  {
    hide Storable, Accepts, Writable, Lists, SaysMaxAge;
    var r := reply.response;
    var m := Recorded(r, key.url, now);
    assert MetaFromResponse(r, key.url, now) == m;
    StorableIff(r.httpCode, m, |r.body|);
    WritableIff(key, m, r.body);
  }

  // With nothing usable stored, a call asks its own request, answers the reply and stores it if it may be
  // reused and written.
  lemma UnusableIsFetched(dates: Dates, store: Store, call: Call)
    requires Shares(call)
    requires forall entry :: Finds(store, call, entry) ==> Classify(dates, entry.meta, call.now) == Unusable
    ensures OnlyAsks(CfGet(dates, store, call).answer, OwnExchange(call))
    ensures CfGet(dates, store, call).store ==
            StoredAfter(store - call.env.lost, call.env, Key(call.partition.value, call.url.value), OwnExchange(call).reply, call.now)
  {
    hide CacheableRequest, Classify, Remembered, StoredAfter;
    SharesUsesStore(call);
    var key, st, reply := KeyOf(call), store - call.env.lost, OwnExchange(call).reply;
    if key in st && call.env.getOk {
      assert Finds(store, call, st[key]);
    }
    if reply.status.Ok? {
      RememberedIsStored(st, call.env, key, reply, call.now);
    } else {
      FailureStoresNothing(st, call.env, key, reply, call.now);
    }
  }

  lemma FailureStoresNothing(st: Store, env: Env, key: Key, reply: Reply, now: int)
    requires !reply.status.Ok?
    ensures StoredAfter(st, env, key, reply, now) == st
  {
  }

  /* ---------- revalidation ---------- */

  // The one conditional request for a stale entry: to its final URL, with each validator it has.
  function Asking(entry: Entry, cfg: Config): Request {
    Request(entry.meta.finalUrl,
            cfg.(ifNoneMatch := if entry.meta.etag == "" then None else Some(entry.meta.etag),
                 ifModifiedSince := if entry.meta.lastModified == "" then None else Some(entry.meta.lastModified)))
  }

  function Newer(was: Header, now: Header): Header {
    if now == "" then was else now
  }

  // The entry after a 304: the header fields the 304 has are its own, the others stay.
  function Renewed(m: Meta, r: Response<Bytes>, now: int): Meta {
    Meta(m.finalUrl, m.contentType, Newer(m.etag, r.etag), m.lastModified, Newer(m.cacheControl, r.cacheControl),
         Newer(m.expires, r.expires), Newer(m.date, r.date), now)
  }

  // A 304 to it renews the entry and serves the stored body.
  lemma NotModifiedIsServed(dates: Dates, store: Store, call: Call, entry: Entry)
    requires Shares(call) && Finds(store, call, entry) && Classify(dates, entry.meta, call.now) == Revalidate
    requires var reply := call.env.reply(Asking(entry, call.cfg)); reply.status.Ok? && reply.response.httpCode == 304
    ensures var key, st := Key(call.partition.value, call.url.value), store - call.env.lost;
            var x := Exchange(Asking(entry, call.cfg), call.env.reply(Asking(entry, call.cfg)));
            var m := Renewed(entry.meta, x.reply.response, call.now);
            var own := OwnExchange(call).request;
            && CfGet(dates, store, call).store == (if call.env.putOk && Writable(key, m, entry.body) then st[key := Entry(m, entry.body)] else st)
            && CfGet(dates, store, call).answer ==
                 if call.env.rebuildOk then Answer(Revalidated, Ok, Some(Served(m, entry.body)), [x])
                 else Answer(Fetched, call.env.retry(own).status, Some(call.env.retry(own).response), [x, Exchange(own, call.env.retry(own))])
  {
    hide CacheableRequest, Classify, Remembered, Accepts, Writable, CfMiss;
    SharesUsesStore(call);
    var key, st := KeyOf(call), store - call.env.lost;
    assert ConditionalRequest(entry.meta, call.cfg) == Asking(entry, call.cfg);
    var reply := call.env.reply(Asking(entry, call.cfg));
    var m := Renewed(entry.meta, reply.response, call.now);
    assert Freshened(entry.meta, reply.response, call.now) == m;
    assert Rebuilt(m, entry.body) == Served(m, entry.body);
    hide Freshened, Rebuilt, ConditionalRequest;
    WritableIff(key, m, entry.body);
    assert CfGet(dates, store, call) == CfRevalidate(st, call);
  }

  // Any other answer to it is the call's answer, and is stored in the entry's place if it may be.
  lemma ChangedIsStored(dates: Dates, store: Store, call: Call, entry: Entry)
    requires Shares(call) && Finds(store, call, entry) && Classify(dates, entry.meta, call.now) == Revalidate
    requires var reply := call.env.reply(Asking(entry, call.cfg)); !reply.status.Ok? || reply.response.httpCode != 304
    ensures var x := Exchange(Asking(entry, call.cfg), call.env.reply(Asking(entry, call.cfg)));
            && OnlyAsks(CfGet(dates, store, call).answer, x)
            && CfGet(dates, store, call).store ==
                 StoredAfter(store - call.env.lost, call.env, Key(call.partition.value, call.url.value), x.reply, call.now)
  {
    hide CacheableRequest, Classify, Remembered, StoredAfter, CfMiss;
    SharesUsesStore(call);
    var key, st := KeyOf(call), store - call.env.lost;
    assert ConditionalRequest(entry.meta, call.cfg) == Asking(entry, call.cfg);
    hide ConditionalRequest;
    var reply := call.env.reply(Asking(entry, call.cfg));
    assert CfGet(dates, store, call) == CfRevalidate(st, call);
    if reply.status.Ok? {
      RememberedIsStored(st, call.env, key, reply, call.now);
    } else {
      FailureStoresNothing(st, call.env, key, reply, call.now);
    }
  }
}
