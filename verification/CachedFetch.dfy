/** The HTTP cache in front of the fetcher (src/cached_fetch.c): one cf_get_with call as a function of the
  * store and of what the environment answers, and the C procedure that refines it.
  *
  * What the files of the store and the fetcher may do in one call is a field of Env, so a statement for all
  * calls is a statement for every origin, every eviction, every failed write and every failed allocation.
  */
module CachedFetch {
  import opened Freshness
  import opened Wrappers

  const HC_URL_MAX := 2048
  const HC_TYPE_MAX := 128

  type Bytes = seq<bv8>

  // The fields of sf_config the cache looks at; `rest` stands for all the others.
  datatype Config = Config(
    username: Option<string>,
    rangeStart: int,
    allowOverlayHttp: bool,
    ifNoneMatch: Option<string>,
    ifModifiedSince: Option<string>,
    rest: int
  )

  datatype Status = Ok | ErrInternal | ErrOther(code: nat)

  // sf_response; `rest` stands for the fields the cache neither stores nor rebuilds. The body is a
  // value in the specification and a heap buffer in the procedure.
  datatype Response<B> = Response(
    httpCode: int,
    body: B,
    finalUrl: Option<string>,
    contentType: Option<string>,
    tlsVersion: Option<string>,
    etag: Header,
    lastModified: Header,
    cacheControl: Header,
    expires: Header,
    date: Header,
    rest: Option<int>
  )

  datatype Request = Request(url: string, cfg: Config)

  // What the fetcher answers. `via` are the URLs it was redirected to on the way, each of which was sent the
  // same request; whether the response says where it came from is a matter of its finalUrl.
  datatype Reply = Reply(status: Status, response: Response<Bytes>, via: seq<string>)

  datatype Entry = Entry(meta: Meta, body: Bytes)

  datatype Key = Key(partition: string, url: string)

  type Store = map<Key, Entry>

  // What the environment does during one call: which entries the store has lost since the last call,
  // whether reading, writing and rebuilding succeed, and how the fetcher answers the first and the second
  // request of the call.
  datatype Env = Env(
    storeOpen: bool,
    lost: set<Key>,
    getOk: bool,
    putOk: bool,
    rebuildOk: bool,
    reply: Request -> Reply,
    retry: Request -> Reply
  )

  datatype Call = Call(partition: Option<string>, url: Option<string>, cfg: Config, now: int, env: Env)

  /* ---------- the parts of cf_get_with ---------- */

  // GET over https with no credentials and no byte range.
  predicate CacheableRequest(cfg: Config, url: string) {
    && "https://" <= url && |url| < HC_URL_MAX
    && (cfg.username.None? || cfg.username.value == "")
    && cfg.rangeStart < 0
    && !cfg.allowOverlayHttp
  }

  predicate UsesStore(call: Call) {
    && call.env.storeOpen
    && call.partition.Some? && call.partition.value != ""
    && call.url.Some? && CacheableRequest(call.cfg, call.url.value)
  }

  function KeyOf(call: Call): Key
    requires UsesStore(call)
  {
    Key(call.partition.value, call.url.value)
  }

  // Copies into a buffer of `cap` characters: what does not fit is dropped, never truncated.
  function CopyVal(cap: nat, src: string): string {
    if |src| >= cap then "" else src
  }

  // The URL that produced a response to a request for `url`.
  function FinalUrlOf(r: Response<Bytes>, url: string): string {
    if r.finalUrl.Some? then r.finalUrl.value else url
  }

  function MetaFromResponse(r: Response<Bytes>, url: string, now: int): Meta {
    Meta(CopyVal(HC_URL_MAX, FinalUrlOf(r, url)),
         if r.contentType.Some? then CopyVal(HC_TYPE_MAX, r.contentType.value) else "",
         CopyVal(HC_VAL_MAX, r.etag), CopyVal(HC_VAL_MAX, r.lastModified),
         CopyVal(HC_VAL_MAX, r.cacheControl), CopyVal(HC_VAL_MAX, r.expires), CopyVal(HC_VAL_MAX, r.date), now)
  }

  function Rebuilt<B>(meta: Meta, body: B): Response<B> {
    Response(200, body, Some(meta.finalUrl),
             if meta.contentType != "" then Some(meta.contentType) else None,
             Some("cache"),
             CopyVal(HC_VAL_MAX, meta.etag), CopyVal(HC_VAL_MAX, meta.lastModified),
             CopyVal(HC_VAL_MAX, meta.cacheControl), CopyVal(HC_VAL_MAX, meta.expires),
             CopyVal(HC_VAL_MAX, meta.date), None)
  }

  predicate HasNl(s: string) {
    '\r' in s || '\n' in s
  }

  // What hc_put accepts: a final URL, and no field that would break the lines of the file's head.
  predicate Accepts(key: Key, entry: Entry) {
    var m := entry.meta;
    && !HasNl(m.finalUrl) && !HasNl(m.contentType) && !HasNl(m.etag) && !HasNl(m.lastModified)
    && !HasNl(m.cacheControl) && !HasNl(m.expires) && !HasNl(m.date) && m.finalUrl != ""
    && !HasNl(key.partition) && !HasNl(key.url)
    && |key.partition| <= HC_URL_MAX && |key.url| <= HC_URL_MAX && |entry.body| <= HC_MAX_ENTRY
  }

  function Put(store: Store, env: Env, key: Key, entry: Entry): Store {
    if env.putOk && Accepts(key, entry) then store[key := entry] else store
  }

  function Remembered(store: Store, env: Env, key: Key, r: Response<Bytes>, now: int): Store {
    var meta := MetaFromResponse(r, key.url, now);
    if Storable(r.httpCode, meta, |r.body|) then Put(store, env, key, Entry(meta, r.body)) else store
  }

  function ValidatorOf(value: string): Option<string> {
    if value != "" then Some(value) else None
  }

  // The conditional request: to the stored final URL, with the stored validators.
  function ConditionalRequest(meta: Meta, cfg: Config): Request {
    Request(meta.finalUrl, cfg.(ifNoneMatch := ValidatorOf(meta.etag), ifModifiedSince := ValidatorOf(meta.lastModified)))
  }

  function Updated(was: Header, now: Header): Header {
    if now != "" then CopyVal(HC_VAL_MAX, now) else was
  }

  // The stored metadata after a 304: renewed, with the headers the 304 carried.
  function Freshened(meta: Meta, r: Response<Bytes>, now: int): Meta {
    meta.(stored := now,
          cacheControl := Updated(meta.cacheControl, r.cacheControl),
          expires := Updated(meta.expires, r.expires),
          date := Updated(meta.date, r.date),
          etag := Updated(meta.etag, r.etag))
  }

  predicate NotModified(reply: Reply) {
    reply.status.Ok? && reply.response.httpCode == 304
  }

  /* ---------- one call ---------- */

  datatype Source = Refused | Hit | Revalidated | Fetched

  datatype Exchange = Exchange(request: Request, reply: Reply) {
    // The URL that answered in the end.
    function Hop(): string {
      if reply.via == [] then request.url else reply.via[|reply.via| - 1]
    }

    // The request, validators included, was sent to this URL.
    predicate Reaches(url: string) {
      url == request.url || url in reply.via
    }

    predicate Redirected() {
      exists url :: url in reply.via && url != request.url
    }
  }

  // What the caller sees, where it came from, and the network traffic it cost.
  datatype Answer = Answer(source: Source, status: Status, response: Option<Response<Bytes>>, traffic: seq<Exchange>)

  datatype Outcome = Outcome(store: Store, answer: Answer)

  function FetchedAnswer(before: seq<Exchange>, request: Request, reply: Reply): Answer {
    Answer(Fetched, reply.status, Some(reply.response), before + [Exchange(request, reply)])
  }

  // The uncached request.
  function DirectAnswer(call: Call): Answer
    requires call.url.Some?
  {
    var request := Request(call.url.value, call.cfg);
    FetchedAnswer([], request, call.env.reply(request))
  }

  function CfGet(dates: Dates, store: Store, call: Call): Outcome {
    if call.url.None? then Outcome(store, Answer(Refused, ErrInternal, None, []))
    else if !UsesStore(call) then Outcome(store, DirectAnswer(call))
    else
      var key, st := KeyOf(call), store - call.env.lost;
      if key in st && call.env.getOk then
        match Classify(dates, st[key].meta, call.now)
        case Fresh => CfHit(st, call)
        case Revalidate => CfRevalidate(st, call)
        case Unusable => CfMiss(st, call)
      else CfMiss(st, call)
  }

  function CfHit(store: Store, call: Call): Outcome
    requires UsesStore(call) && KeyOf(call) in store
  {
    var entry := store[KeyOf(call)];
    if call.env.rebuildOk then
      Outcome(store, Answer(Hit, Ok, Some(Rebuilt(entry.meta, entry.body)), []))
    else
      Outcome(store, DirectAnswer(call))
  }

  function CfRevalidate(store: Store, call: Call): Outcome
    requires UsesStore(call) && KeyOf(call) in store
  {
    var key, env := KeyOf(call), call.env;
    var entry := store[key];
    var request := ConditionalRequest(entry.meta, call.cfg);
    var reply := env.reply(request);
    if NotModified(reply) then
      var meta := Freshened(entry.meta, reply.response, call.now);
      var store' := Put(store, env, key, Entry(meta, entry.body));
      var sofar := [Exchange(request, reply)];
      if env.rebuildOk then
        Outcome(store', Answer(Revalidated, Ok, Some(Rebuilt(meta, entry.body)), sofar))
      else
        var again := Request(call.url.value, call.cfg);
        Outcome(store', FetchedAnswer(sofar, again, env.retry(again)))
    else
      Outcome(if reply.status.Ok? then Remembered(store, env, key, reply.response, call.now) else store,
              FetchedAnswer([], request, reply))
  }

  function CfMiss(store: Store, call: Call): Outcome
    requires UsesStore(call)
  {
    var request := Request(call.url.value, call.cfg);
    var reply := call.env.reply(request);
    Outcome(if reply.status.Ok? then Remembered(store, call.env, KeyOf(call), reply.response, call.now) else store,
            DirectAnswer(call))
  }

  /* ---------- the procedure, with its buffers ---------- */

  // The address of a heap buffer.
  type Buffer = nat

  function Loaded(r: Response<Buffer>, live: map<Buffer, Bytes>): Response<Bytes>
    requires r.body in live
  {
    Response(r.httpCode, live[r.body], r.finalUrl, r.contentType, r.tlsVersion, r.etag, r.lastModified,
             r.cacheControl, r.expires, r.date, r.rest)
  }

  lemma RebuiltLoads(meta: Meta, body: Buffer, live: map<Buffer, Bytes>)
    requires body in live
    ensures Rebuilt(meta, body).body == body
    ensures Loaded(Rebuilt(meta, body), live) == Rebuilt(meta, live[body])
  {
  }

  class Fetcher {
    const dates: Dates
    var store: Store
    var traffic: seq<Exchange>
    var live: map<Buffer, Bytes>   // allocated and not yet freed
    var next: Buffer

    ghost predicate Valid()
      reads this
    {
      forall b :: b in live ==> b < next
    }

    constructor (dates: Dates)
      ensures Valid() && this.dates == dates
      ensures store == map[] && traffic == [] && live == map[]
    {
      this.dates := dates;
      store, traffic, live, next := map[], [], map[], 0;
    }

    method Alloc(bytes: Bytes) returns (b: Buffer)
      requires Valid()
      modifies this`live, this`next
      ensures Valid() && b == old(next) && b !in old(live) && live == old(live)[b := bytes]
    {
      b := next;
      live := live[b := bytes];
      next := next + 1;
    }

    // Freeing twice, or freeing what was never allocated, does not meet the precondition.
    method Free(b: Buffer)
      requires Valid() && b in live
      modifies this`live
      ensures Valid() && live == old(live) - {b}
    {
      live := live - {b};
    }

    method Fetch(request: Request, how: Request -> Reply) returns (status: Status, out: Response<Buffer>)
      requires Valid()
      modifies this`live, this`next, this`traffic
      ensures Valid() && status == how(request).status
      ensures out.body !in old(live) && live == old(live)[out.body := how(request).response.body]
      ensures Loaded(out, live) == how(request).response
      ensures traffic == old(traffic) + [Exchange(request, how(request))]
    {
      var reply := how(request);
      var b := Alloc(reply.response.body);
      var r := reply.response;
      out := Response(r.httpCode, b, r.finalUrl, r.contentType, r.tlsVersion, r.etag, r.lastModified,
                      r.cacheControl, r.expires, r.date, r.rest);
      status := reply.status;
      traffic := traffic + [Exchange(request, reply)];
    }

    // Rebuilds a 200 from a stored entry. Takes over the body: it ends up in the response, or is freed.
    method ResponseFromCache(meta: Meta, body: Buffer, rebuildOk: bool) returns (out: Option<Response<Buffer>>)
      requires Valid() && body in live
      modifies this`live
      ensures Valid() && out.Some? == rebuildOk
      ensures rebuildOk ==> out.value == Rebuilt(meta, body) && live == old(live)
      ensures !rebuildOk ==> live == old(live) - {body}
    {
      if !rebuildOk {
        Free(body);
        return None;
      }
      out := Some(Rebuilt(meta, body));
    }

    method Remember(env: Env, key: Key, out: Response<Buffer>, now: int)
      requires Valid() && out.body in live
      modifies this`store
      ensures store == Remembered(old(store), env, key, Loaded(out, live), now)
    {
      var r := Loaded(out, live);
      var meta := MetaFromResponse(r, key.url, now);
      if !Storable(r.httpCode, meta, |r.body|) {
        return;
      }
      store := Put(store, env, key, Entry(meta, r.body));
    }

    // The answer and the new store are those of CfGet, and of the buffers allocated on the way exactly
    // the response's own body is left: nothing leaks, nothing is freed twice.
    method CfGetWith(call: Call) returns (status: Status, out: Option<Response<Buffer>>)
      requires Valid()
      modifies this
      ensures Valid()
      ensures var o := CfGet(dates, old(store), call);
              store == o.store && status == o.answer.status && traffic == old(traffic) + o.answer.traffic &&
              out.Some? == o.answer.response.Some?
      ensures out.None? ==> live == old(live)
      ensures out.Some? ==> out.value.body !in old(live) && out.value.body in live && live - {out.value.body} == old(live)
      ensures out.Some? ==> Loaded(out.value, live) == CfGet(dates, old(store), call).answer.response.value
    {
      hide CacheableRequest, Rebuilt, Remembered, CfRevalidate, CfMiss, Classify, Lifetime;
      if call.url.None? {
        return ErrInternal, None;
      }
      var url, cfg, env := call.url.value, call.cfg, call.env;
      if !env.storeOpen || call.partition.None? || call.partition.value == "" || !CacheableRequest(cfg, url) {
        status, out := FetchInto(Request(url, cfg), env.reply);
        return;
      }
      var key := Key(call.partition.value, url);
      store := store - env.lost;
      if key in store && env.getOk {
        var meta := store[key].meta;
        var body := Alloc(store[key].body);
        var cls := Classify(dates, meta, call.now);
        if cls == Fresh {
          out := ResponseFromCache(meta, body, env.rebuildOk);
          if out.Some? {
            RebuiltLoads(meta, body, live);
            return Ok, out;
          }
          status, out := FetchInto(Request(url, cfg), env.reply);
          return;
        }
        if cls == Revalidate {
          status, out := RevalidateWith(call, meta, body);
          return;
        }
        Free(body);
      }
      status, out := MissWith(call);
    }

    // Nothing usable stored: fetch, and remember what may be reused.
    method MissWith(call: Call) returns (status: Status, out: Option<Response<Buffer>>)
      requires Valid() && UsesStore(call)
      modifies this
      ensures Valid()
      ensures var o := CfMiss(old(store), call);
              store == o.store && status == o.answer.status && traffic == old(traffic) + o.answer.traffic
      ensures out.Some? && out.value.body in live && live - {out.value.body} == old(live)
      ensures out.value.body !in old(live)
      ensures Some(Loaded(out.value, live)) == CfMiss(old(store), call).answer.response
    {
      hide CacheableRequest, Remembered;
      var st, answer := Fetch(Request(call.url.value, call.cfg), call.env.reply);
      if st.Ok? {
        Remember(call.env, Key(call.partition.value, call.url.value), answer, call.now);
      }
      return st, Some(answer);
    }

    // The stale entry with a validator: one conditional GET to the stored final URL. Owns `body`.
    method RevalidateWith(call: Call, stored: Meta, body: Buffer) returns (status: Status, out: Option<Response<Buffer>>)
      requires Valid() && UsesStore(call) && body in live
      requires KeyOf(call) in store && store[KeyOf(call)] == Entry(stored, live[body])
      modifies this
      ensures Valid()
      ensures var o := CfRevalidate(old(store), call);
              store == o.store && status == o.answer.status && traffic == old(traffic) + o.answer.traffic
      ensures out.Some? && out.value.body in live && live - {out.value.body} == old(live) - {body}
      ensures out.value.body == body || out.value.body !in old(live)
      ensures Some(Loaded(out.value, live)) == CfRevalidate(old(store), call).answer.response
    {
      hide MetaFromResponse, CacheableRequest, Freshened, Put, Rebuilt, Remembered, Classify;
      var url, cfg, env := call.url.value, call.cfg, call.env;
      var key, meta := Key(call.partition.value, url), stored;
      var st, answer := Fetch(ConditionalRequest(meta, cfg), env.reply);
      if st.Ok? && answer.httpCode == 304 {
        meta := Freshened(meta, Loaded(answer, live), call.now);
        store := Put(store, env, key, Entry(meta, live[body]));
        Free(answer.body);
        out := ResponseFromCache(meta, body, env.rebuildOk);
        if out.Some? {
          RebuiltLoads(meta, body, live);
          return Ok, out;
        }
        status, out := FetchInto(Request(url, cfg), env.retry);
        return;
      }
      Free(body);
      if st.Ok? {
        Remember(env, key, answer, call.now);
      }
      return st, Some(answer);
    }

    method FetchInto(request: Request, how: Request -> Reply) returns (status: Status, out: Option<Response<Buffer>>)
      requires Valid()
      modifies this`live, this`next, this`traffic
      ensures Valid() && status == how(request).status && out.Some?
      ensures out.value.body !in old(live) && live == old(live)[out.value.body := how(request).response.body]
      ensures Loaded(out.value, live) == how(request).response
      ensures traffic == old(traffic) + [Exchange(request, how(request))]
    {
      var answer;
      status, answer := Fetch(request, how);
      out := Some(answer);
    }
  }
}
