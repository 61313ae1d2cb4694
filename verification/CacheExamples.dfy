/** Concrete runs of the cache (src/cached_fetch.c) in which it does what its documentation rules out. */
module CacheExamples {
  import opened CachedFetch
  import opened CacheRuns
  import opened CacheValidators
  import opened Freshness
  import opened Wrappers

  const SITE_A := "https://a"
  const SITE_B := "https://b"
  const NEVER_STORE := "no-store,max-age=9"

  function NoDates(): Dates {
    s => -1
  }

  function DemoConfig(): Config {
    Config(None, -1, false, None, None, 0)
  }

  function DemoResponse(code: int, final: Option<string>, etag: Header, control: Header): Response<Bytes> {
    Response(code, [], final, None, None, etag, "", control, "", "", None)
  }

  // A conditional request for site A.
  function DemoAsking(etag: Header): Request {
    Request(SITE_A, DemoConfig().(ifNoneMatch := Some(etag)))
  }

  // A call for site A, answered by `reply` whatever it asks.
  function DemoCall(reply: Reply): Call {
    Call(Some("p"), Some(SITE_A), DemoConfig(), 0, Env(true, {}, true, true, true, (request: Request) => reply, (request: Request) => reply))
  }

  function DemoMeta(etag: Header, control: Header): Meta {
    Meta(SITE_A, "", etag, "", control, "", "", 0)
  }

  function DemoStore(etag: Header, control: Header): Store {
    map[Key("p", SITE_A) := Entry(DemoMeta(etag, control), [])]
  }

  lemma DemoUsesStore(reply: Reply)
    ensures UsesStore(DemoCall(reply)) && KeyOf(DemoCall(reply)) == Key("p", SITE_A)
    ensures forall store: Store :: store - DemoCall(reply).env.lost == store
  {
    hide Directive;
  }

  lemma DemoRules(etag: Header)
    requires etag == "v" || etag == "w"
    ensures Classify(NoDates(), DemoMeta(etag, ""), 0) == Revalidate && Storable(200, DemoMeta(etag, ""), 0)
    ensures Accepts(Key("p", SITE_A), Entry(DemoMeta(etag, ""), []))
  {
    assert SkipSeparators("") == "";
  }

  // The first call of the runs: a 200 with the etag "v", stored under site A's own URL.
  lemma DemoFirst(final: Option<string>, via: seq<string>)
    requires final == None || final == Some(SITE_A)
    ensures var call := DemoCall(Reply(Ok, DemoResponse(200, final, "v", ""), via));
            var answer := AnswerAt(NoDates(), map[], [call], 0);
            && StoreAfter(NoDates(), map[], [call]) == DemoStore("v", "")
            && answer.traffic == [Exchange(Request(SITE_A, DemoConfig()), Reply(Ok, DemoResponse(200, final, "v", ""), via))]
  {
    var reply := Reply(Ok, DemoResponse(200, final, "v", ""), via);
    var call := DemoCall(reply);
    DemoUsesStore(reply);
    DemoRules("v");
    var empty: Store := map[];
    assert MetaFromResponse(DemoResponse(200, final, "v", ""), SITE_A, 0) == DemoMeta("v", "");
    hide CacheableRequest, Storable, Accepts, Classify, MetaFromResponse;
    assert CfGet(NoDates(), empty, call) == CfMiss(empty, call);
    assert [call][..0] == [];
  }

  // What a later call for site A asks when the entry has this etag.
  lemma DemoAsks(etag: Header, reply: Reply)
    requires etag == "v" || etag == "w"
    ensures var o := CfGet(NoDates(), DemoStore(etag, ""), DemoCall(reply));
            o == CfRevalidate(DemoStore(etag, ""), DemoCall(reply)) &&
            o.answer.traffic != [] && o.answer.traffic[0] == Exchange(DemoAsking(etag), reply) &&
            (NotModified(reply) || |o.answer.traffic| == 1)
  {
    DemoUsesStore(reply);
    DemoRules(etag);
    hide CacheableRequest, Storable, Accepts, Classify, Freshened, Rebuilt, Remembered;
  }

  predicate BeginsWith(answer: Answer, exchange: Exchange) {
    answer.traffic != [] && answer.traffic[0] == exchange
  }

  /* ---------- validators ---------- */

  // Site A gives "v"; revalidating is redirected to site B, whose 304 brings "w"; and the third call sends
  // B's "w" to A.
  lemma RedirectedEtagTravels()
    ensures var stored := Reply(Ok, DemoResponse(200, Some(SITE_A), "v", ""), []);
            var renewing := Reply(Ok, DemoResponse(304, Some(SITE_B), "w", ""), [SITE_B]);
            var run := [DemoCall(stored), DemoCall(renewing), DemoCall(stored)];
            && BeginsWith(AnswerAt(NoDates(), map[], run, 1), Exchange(DemoAsking("v"), renewing))
            && Exchange(DemoAsking("v"), renewing).Hop() == SITE_B
            && BeginsWith(AnswerAt(NoDates(), map[], run, 2), Exchange(DemoAsking("w"), stored))
            && Exchange(DemoAsking("w"), stored).Reaches(SITE_A)
  {
    var first, renewing := Reply(Ok, DemoResponse(200, Some(SITE_A), "v", ""), []), Reply(Ok, DemoResponse(304, Some(SITE_B), "w", ""), [SITE_B]);
    var stored, redirected := DemoCall(first), DemoCall(renewing);
    DemoFirst(Some(SITE_A), []);
    DemoAsks("v", renewing);
    DemoAsks("w", first);
    DemoRules("w");
    DemoUsesStore(renewing);
    assert Freshened(DemoMeta("v", ""), DemoResponse(304, Some(SITE_B), "w", ""), 0) == DemoMeta("w", "");
    hide CfGet, Accepts, Freshened, CacheableRequest;
    assert CfRevalidate(DemoStore("v", ""), redirected).store == DemoStore("w", "");
    var run := [stored, redirected, stored];
    assert run[..1] == [stored] && run[..2] == [stored, redirected] && run[..2][..1] == [stored];
    assert StoreAfter(NoDates(), map[], run[..2]) == DemoStore("w", "");
  }

  // Site A gives "v"; revalidating is redirected to site B, and hands it A's "v", whatever B answers: here
  // a 404. No answer of the run strays.
  lemma RedirectedRequestCarriesEtag()
    ensures var stored := Reply(Ok, DemoResponse(200, Some(SITE_A), "v", ""), []);
            var missing := Reply(Ok, DemoResponse(404, Some(SITE_B), "", ""), [SITE_B]);
            var run := [DemoCall(stored), DemoCall(missing)];
            && NoneStrays(History(NoDates(), run[..1]))
            && BeginsWith(AnswerAt(NoDates(), map[], run, 1), Exchange(DemoAsking("v"), missing))
            && Exchange(DemoAsking("v"), missing).Reaches(SITE_B)
  {
    var first, missing := Reply(Ok, DemoResponse(200, Some(SITE_A), "v", ""), []), Reply(Ok, DemoResponse(404, Some(SITE_B), "", ""), [SITE_B]);
    var stored, redirected := DemoCall(first), DemoCall(missing);
    DemoFirst(Some(SITE_A), []);
    DemoAsks("v", missing);
    DemoUsesStore(first);
    hide CfGet, CacheableRequest;
    var run := [stored, redirected];
    assert run[..1] == [stored] && [stored][..0] == [];
    assert History(NoDates(), []) == [];
    assert History(NoDates(), [stored]) == [] + EventsOf(stored, AnswerAt(NoDates(), map[], [stored], 0));
    assert EventsOf(stored, AnswerAt(NoDates(), map[], [stored], 0)) ==
           [Event(Key("p", SITE_A), 0, Exchange(Request(SITE_A, DemoConfig()), first))];
  }

  // A redirected 200 that does not report its final URL: B's "v" is recorded, and sent, as A's.
  lemma UnreportedHopEtagTravels()
    ensures var stored := Reply(Ok, DemoResponse(200, None, "v", ""), [SITE_B]);
            && Exchange(Request(SITE_A, DemoConfig()), stored).Hop() == SITE_B
            && BeginsWith(AnswerAt(NoDates(), map[], [DemoCall(stored), DemoCall(stored)], 1), Exchange(DemoAsking("v"), stored))
            && Exchange(DemoAsking("v"), stored).Reaches(SITE_A)
  {
    var reply := Reply(Ok, DemoResponse(200, None, "v", ""), [SITE_B]);
    var stored := DemoCall(reply);
    DemoFirst(None, [SITE_B]);
    DemoAsks("v", reply);
    hide CfGet;
    assert [stored, stored][..1] == [stored];
  }

  /* ---------- no-store ---------- */

  ghost predicate IsToken(s: string) {
    s != "" && forall i :: 0 <= i < |s| ==> !EndsToken(s[i])
  }

  lemma {:induction false} TokenEndsAt(s: string, n: nat)
    requires n <= |s| && (forall i :: 0 <= i < n ==> !EndsToken(s[i])) && (n == |s| || EndsToken(s[n]))
    ensures TokenLength(s) == n
    decreases n
  {
    if n > 0 {
      TokenEndsAt(s[1..], n - 1);
    }
  }

  // A list of one more element.
  lemma DirectiveOfList(token: string, tail: string, name: string)
    requires IsToken(token) && tail != "" && tail[0] == ','
    ensures Directive(token + tail, name) == if SameToken(token, name) then Some(tail) else Directive(tail[1..], name)
  {
    var s := token + tail;
    hide SameToken, TokenLength;
    TokenEndsAt(s, |token|);
    assert s[..|token|] == token && s[|token|..] == tail;
    assert Directive(tail, name) == Directive(tail[1..], name) by {
      assert SkipSeparators(tail) == SkipSeparators(tail[1..]);
    }
  }

  // The last element, with its value.
  lemma DirectiveOfLast(token: string, digit: char, name: string)
    requires IsToken(token) && IsDigit(digit) && name != ""
    ensures Directive(token + ['=', digit], name) == if SameToken(token, name) then Some(['=', digit]) else None
  {
    var s := token + ['=', digit];
    hide SameToken, TokenLength;
    TokenEndsAt(s, |token|);
    assert s[..|token|] == token && s[|token|..] == ['=', digit];
    assert ['=', digit][1..] == [digit] && [digit][1..] == "";
    assert FromComma(['=', digit]) == FromComma([digit]) == FromComma("") == "";
    assert Directive("", name) == None;
  }

  lemma NeverStoreDirective(name: string)
    requires name != ""
    ensures Directive(NEVER_STORE, name) ==
            if SameToken("no-store", name) then Some(",max-age=9") else if SameToken("max-age", name) then Some(['=', '9']) else None
  {
    hide Directive, SameToken;
    DifferentNames();
    assert NEVER_STORE == "no-store" + ",max-age=9" && ",max-age=9"[1..] == "max-age" + ['=', '9'];
    DirectiveOfList("no-store", ",max-age=9", name);
    DirectiveOfLast("max-age", '9', name);
  }

  lemma NeverStoreDirectives()
    ensures HasDirective(NEVER_STORE, "no-store") && !HasDirective(NEVER_STORE, "no-cache")
    ensures MaxAge(NEVER_STORE) == Some(9)
  {
    hide Directive, SameToken, Digits;
    DifferentNames();
    NeverStoreDirective("no-store");
    NeverStoreDirective("no-cache");
    NeverStoreDirective("max-age");
    assert ['=', '9'][1..] == ['9'];
    OneDigit('9');
  }

  lemma OneDigit(digit: char)
    requires IsDigit(digit)
    ensures Digits([digit], 0) == digit as int - '0' as int
  {
    assert [digit][1..] == "";
  }

  lemma DifferentNames()
    ensures IsToken("no-store") && IsToken("max-age")
    ensures SameToken("no-store", "no-store") && !SameToken("no-store", "no-cache") && !SameToken("no-store", "max-age")
    ensures SameToken("max-age", "max-age") && !SameToken("max-age", "no-cache")
  {
    assert Lower("no-store"[3]) != Lower("no-cache"[3]);
  }

  lemma NeverStoreRules()
    ensures Classify(NoDates(), DemoMeta("v", NEVER_STORE), 0) == Fresh
    ensures Accepts(Key("p", SITE_A), Entry(DemoMeta("v", NEVER_STORE), []))
    ensures Freshened(DemoMeta("v", ""), DemoResponse(304, Some(SITE_A), "", NEVER_STORE), 0) == DemoMeta("v", NEVER_STORE)
  {
    NeverStoreDirectives();
    hide Directive, MaxAge;
  }

  // The renewal, and the call after it.
  lemma RenewedDemo(again: Reply)
    ensures var renewing := Reply(Ok, DemoResponse(304, Some(SITE_A), "", NEVER_STORE), []);
            && CfRevalidate(DemoStore("v", ""), DemoCall(renewing)).store == DemoStore("v", NEVER_STORE)
            && CfGet(NoDates(), DemoStore("v", NEVER_STORE), DemoCall(again)).answer.source == Hit
  {
    var renewing := Reply(Ok, DemoResponse(304, Some(SITE_A), "", NEVER_STORE), []);
    DemoUsesStore(renewing);
    DemoUsesStore(again);
    NeverStoreRules();
    hide Classify, Accepts, Freshened, CacheableRequest, Rebuilt, CfMiss, Remembered;
  }

  // A stored page is renewed by a 304 that says no-store: the entry is kept, says no-store, and is served
  // to the next call as a fresh hit.
  lemma RenewalStoresNoStore()
    ensures var stored := Reply(Ok, DemoResponse(200, Some(SITE_A), "v", ""), []);
            var renewing := Reply(Ok, DemoResponse(304, Some(SITE_A), "", NEVER_STORE), []);
            var run := [DemoCall(stored), DemoCall(renewing), DemoCall(stored)];
            && StoreAfter(NoDates(), map[], run[..2]) == DemoStore("v", NEVER_STORE)
            && HasDirective(DemoMeta("v", NEVER_STORE).cacheControl, "no-store")
            && AnswerAt(NoDates(), map[], run, 2).source == Hit
  {
    var first, renewing := Reply(Ok, DemoResponse(200, Some(SITE_A), "v", ""), []), Reply(Ok, DemoResponse(304, Some(SITE_A), "", NEVER_STORE), []);
    var stored, renewed := DemoCall(first), DemoCall(renewing);
    DemoFirst(Some(SITE_A), []);
    DemoAsks("v", renewing);
    DemoUsesStore(renewing);
    DemoUsesStore(first);
    NeverStoreDirectives();
    NeverStoreRules();
    RenewedDemo(first);
    hide CfGet, CfRevalidate;
    var run := [stored, renewed, stored];
    assert run[..1] == [stored] && run[..2] == [stored, renewed] && run[..2][..1] == [stored];
  }
}
