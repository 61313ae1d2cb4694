/** Which answers an entry's headers are from (src/cached_fetch.c): a 200 sets them all, and a 304 those it
  * carries. What follows for whole runs about no-store.
  */
module CacheProvenance {
  import opened CachedFetch
  import opened CacheRuns
  import opened Freshness
  import opened Wrappers

  // The events, by their place in the history, that last set an entry's etag, its date of modification and
  // its Cache-Control.
  datatype Tag = Tag(etagBy: nat, dateBy: nat, controlBy: nat)

  type Tags = map<Key, Tag>

  predicate Puts(env: Env, key: Key, entry: Entry) {
    env.putOk && Accepts(key, entry)
  }

  function TagFetched(tags: Tags, env: Env, key: Key, reply: Reply, now: int, at: nat): Tags {
    var r := reply.response;
    var meta := MetaFromResponse(r, key.url, now);
    if reply.status.Ok? && Storable(r.httpCode, meta, |r.body|) && Puts(env, key, Entry(meta, r.body)) then tags[key := Tag(at, at, at)]
    else tags
  }

  function TagRenewed(tag: Tag, r: Response<Bytes>, at: nat): Tag {
    Tag(if r.etag != "" then at else tag.etagBy, tag.dateBy, if r.cacheControl != "" then at else tag.controlBy)
  }

  function TagRevalidated(store: Store, tags: Tags, call: Call, at: nat): Tags
    requires UsesStore(call) && KeyOf(call) in store
  {
    var key, entry := KeyOf(call), store[KeyOf(call)];
    var reply := call.env.reply(ConditionalRequest(entry.meta, call.cfg));
    if NotModified(reply) then
      if key in tags && Puts(call.env, key, Entry(Freshened(entry.meta, reply.response, call.now), entry.body)) then
        tags[key := TagRenewed(tags[key], reply.response, at)]
      else tags
    else TagFetched(tags, call.env, key, reply, call.now, at)
  }

  // The tags after a call whose first exchange is event `at`.
  function TagStep(dates: Dates, store: Store, tags: Tags, call: Call, at: nat): Tags {
    if call.url.None? || !UsesStore(call) then tags
    else
      var key, st, tg := KeyOf(call), store - call.env.lost, tags - call.env.lost;
      if key in st && call.env.getOk && Classify(dates, st[key].meta, call.now) == Fresh then tg
      else if key in st && call.env.getOk && Classify(dates, st[key].meta, call.now) == Revalidate then
        TagRevalidated(st, tg, call, at)
      else TagFetched(tg, call.env, key, call.env.reply(Request(call.url.value, call.cfg)), call.now, at)
  }

  // The tags after a run from an empty store.
  function TagsAfter(dates: Dates, calls: seq<Call>): Tags {
    if calls == [] then map[]
    else
      var before := calls[..|calls| - 1];
      TagStep(dates, StoreAfter(dates, map[], before), TagsAfter(dates, before), calls[|calls| - 1], |History(dates, before)|)
  }

  // The URL the cache takes a response to be from: what a 200 reports, and what a 304 was asked for.
  function TakenFrom(e: Event): string {
    if Is200(e) then e.Recorded() else e.Asked()
  }

  ghost predicate EtagFrom(hist: seq<Event>, i: nat, key: Key, m: Meta) {
    && i < |hist| && hist[i].key == key && hist[i].Response().etag == m.etag && TakenFrom(hist[i]) == m.finalUrl
    && (Is200(hist[i]) || (NotModified(hist[i].exchange.reply) && m.etag != ""))
  }

  ghost predicate DateFrom(hist: seq<Event>, i: nat, key: Key, m: Meta) {
    && i < |hist| && hist[i].key == key && Is200(hist[i])
    && hist[i].Response().lastModified == m.lastModified && TakenFrom(hist[i]) == m.finalUrl
  }

  ghost predicate ControlFrom(hist: seq<Event>, i: nat, key: Key, m: Meta) {
    && i < |hist| && hist[i].key == key && hist[i].Response().cacheControl == m.cacheControl
    && (if Is200(hist[i]) then !Lists(m.cacheControl, "no-store")
        else NotModified(hist[i].exchange.reply) && m.cacheControl != "")
  }

  ghost predicate TagTrue(hist: seq<Event>, key: Key, m: Meta, tag: Tag) {
    EtagFrom(hist, tag.etagBy, key, m) && DateFrom(hist, tag.dateBy, key, m) && ControlFrom(hist, tag.controlBy, key, m)
  }

  ghost predicate TagsTrue(store: Store, tags: Tags, hist: seq<Event>) {
    tags.Keys == store.Keys && forall key :: key in store ==> TagTrue(hist, key, store[key].meta, tags[key])
  }

  lemma TagTrueExtends(hist: seq<Event>, more: seq<Event>, key: Key, m: Meta, tag: Tag)
    requires TagTrue(hist, key, m, tag)
    ensures TagTrue(hist + more, key, m, tag)
  {
  }

  lemma TagsTrueExtend(store: Store, tags: Tags, lost: set<Key>, hist: seq<Event>, more: seq<Event>)
    requires TagsTrue(store, tags, hist)
    ensures TagsTrue(store - lost, tags - lost, hist + more)
  {
    hide TagTrue;
    forall key | key in store - lost ensures TagTrue(hist + more, key, (store - lost)[key].meta, (tags - lost)[key]) {
      TagTrueExtends(hist, more, key, store[key].meta, tags[key]);
    }
  }

  lemma FetchedTrue(store: Store, tags: Tags, hist: seq<Event>, env: Env, at: nat, now: int)
    requires TagsTrue(store, tags, hist) && at < |hist|
    ensures var e := hist[at];
            var reply := e.exchange.reply;
            TagsTrue(if reply.status.Ok? then Remembered(store, env, e.key, reply.response, now) else store,
                     TagFetched(tags, env, e.key, reply, now, at), hist)
  {
    hide CopyVal, Storable, Accepts, MetaFromResponse, Lists;
    var e := hist[at];
    var r, key := e.Response(), e.key;
    var meta := MetaFromResponse(r, key.url, now);
    if e.exchange.reply.status.Ok? && Storable(r.httpCode, meta, |r.body|) && Puts(env, key, Entry(meta, r.body)) {
      StorableMeans(r.httpCode, meta, |r.body|);
      AcceptedKeepsFinalUrl(key, r, now);
      KeptHeaders(r, key.url, now);
      assert TagTrue(hist, key, meta, Tag(at, at, at));
    }
  }

  lemma RenewedTagTrue(hist: seq<Event>, at: nat, key: Key, m: Meta, tag: Tag, now: int)
    requires TagTrue(hist, key, m, tag) && at < |hist| && hist[at].key == key
    requires NotModified(hist[at].exchange.reply) && hist[at].Asked() == m.finalUrl
    ensures TagTrue(hist, key, Freshened(m, hist[at].Response(), now), TagRenewed(tag, hist[at].Response(), at))
  {
    hide Lists;
  }

  lemma RevalidatedTrue(store: Store, tags: Tags, hist: seq<Event>, call: Call, at: nat)
    requires UsesStore(call) && KeyOf(call) in store && TagsTrue(store, tags, hist) && at < |hist|
    requires hist[at] == Event(KeyOf(call), call.now, CfRevalidate(store, call).answer.traffic[0])
    ensures TagsTrue(CfRevalidate(store, call).store, TagRevalidated(store, tags, call, at), hist)
  {
    hide CacheableRequest, Remembered, Freshened, Rebuilt, Accepts, TagTrue, TagFetched, TagRenewed;
    var key, entry := KeyOf(call), store[KeyOf(call)];
    if NotModified(hist[at].exchange.reply) {
      RenewedTagTrue(hist, at, key, entry.meta, tags[key], call.now);
    } else {
      FetchedTrue(store, tags, hist, call.env, at, call.now);
    }
  }

  lemma StepTagsTrue(dates: Dates, store: Store, tags: Tags, hist: seq<Event>, call: Call)
    requires TagsTrue(store, tags, hist)
    ensures var o := CfGet(dates, store, call);
            TagsTrue(o.store, TagStep(dates, store, tags, call, |hist|), hist + EventsOf(call, o.answer))
  {
    hide CacheableRequest, Remembered, Rebuilt, Classify, TagsTrue, TagRevalidated, TagFetched, CfRevalidate;
    var o := CfGet(dates, store, call);
    var more := EventsOf(call, o.answer);
    TagsTrueExtend(store, tags, {}, hist, more);
    assert store - {} == store && tags - {} == tags;
    if UsesStore(call) {
      var key, st, tg := KeyOf(call), store - call.env.lost, tags - call.env.lost;
      TagsTrueExtend(store, tags, call.env.lost, hist, more);
      if key in st && call.env.getOk && Classify(dates, st[key].meta, call.now).Fresh? {
      } else if key in st && call.env.getOk && Classify(dates, st[key].meta, call.now).Revalidate? {
        RevalidateTraffic(st, call);
        assert (hist + more)[|hist|] == more[0];
        RevalidatedTrue(st, tg, hist + more, call, |hist|);
      } else {
        assert more == [Event(key, call.now, o.answer.traffic[0])] && (hist + more)[|hist|] == more[0];
        FetchedTrue(st, tg, hist + more, call.env, |hist|, call.now);
      }
    }
  }

  lemma RevalidateTraffic(store: Store, call: Call)
    requires UsesStore(call) && KeyOf(call) in store
    ensures CfRevalidate(store, call).answer.traffic != []
  {
  }

  lemma {:induction false} RunTagsTrue(dates: Dates, calls: seq<Call>)
    ensures TagsTrue(StoreAfter(dates, map[], calls), TagsAfter(dates, calls), History(dates, calls))
    decreases |calls|
  {
    hide CfGet, TagStep, EventsOf;
    if calls != [] {
      var n := |calls| - 1;
      RunTagsTrue(dates, calls[..n]);
      StepTagsTrue(dates, StoreAfter(dates, map[], calls[..n]), TagsAfter(dates, calls[..n]), History(dates, calls[..n]), calls[n]);
    }
  }

  /* ---------- no-store ---------- */

  // In any run, a stored entry says no-store if and only if its Cache-Control is from a 304 that says so: what
  // hc_storable keeps out as a 200, a renewal brings in.
  lemma StoredNoStoreIff(dates: Dates, calls: seq<Call>, key: Key)
    requires key in StoreAfter(dates, map[], calls)
    ensures var hist, tags := History(dates, calls), TagsAfter(dates, calls);
            && key in tags && tags[key].controlBy < |hist|
            && var e := hist[tags[key].controlBy];
               && e.key == key && e.Response().cacheControl == StoreAfter(dates, map[], calls)[key].meta.cacheControl
               && (Lists(StoreAfter(dates, map[], calls)[key].meta.cacheControl, "no-store") <==>
                     NotModified(e.exchange.reply) && Lists(e.Response().cacheControl, "no-store"))
  {
    hide Lists, CfGet;
    RunTagsTrue(dates, calls);
    assert TagTrue(History(dates, calls), key, StoreAfter(dates, map[], calls)[key].meta, TagsAfter(dates, calls)[key]);
  }
}
