/** Partitions of the cache (src/cached_fetch.c; the store is keyed by top-level site and URL): what happens
  * under one says nothing about another, but for the entries the other loses to the shared size limit.
  */
module CachePartitions {
  import opened CachedFetch
  import opened CacheRuns
  import opened Freshness
  import opened Wrappers

  function PartOf(store: Store, p: string): Store {
    map key | key in store && key.partition == p :: store[key]
  }

  // The answers, traffic included, that the calls under one partition get.
  function AnswersOf(dates: Dates, store: Store, calls: seq<Call>, p: string): seq<Answer>
    decreases |calls|
  {
    if calls == [] then []
    else
      var o := CfGet(dates, store, calls[0]);
      (if calls[0].partition == Some(p) then [o.answer] else []) + AnswersOf(dates, o.store, calls[1..], p)
  }

  // The keys of partition p that a call finds lost.
  function LostOf(call: Call, p: string): set<Key> {
    if UsesStore(call) then set key | key in call.env.lost && key.partition == p else {}
  }

  function Losing(call: Call, lost: set<Key>): Call {
    call.(env := call.env.(lost := call.env.lost + lost))
  }

  // The calls under partition p alone. What p's entries lose during other partitions' calls is charged to
  // p's own next call; `pending` has been lost before the first.
  function OwnCalls(calls: seq<Call>, p: string, pending: set<Key>): seq<Call>
    decreases |calls|
  {
    if calls == [] then []
    else if calls[0].partition != Some(p) then OwnCalls(calls[1..], p, pending + LostOf(calls[0], p))
    else if UsesStore(calls[0]) then [Losing(calls[0], pending)] + OwnCalls(calls[1..], p, {})
    else [calls[0]] + OwnCalls(calls[1..], p, pending)
  }

  /* ---------- a call is local ---------- */

  // The one entry a call can see.
  function Visible(store: Store, call: Call): Store
    requires UsesStore(call)
  {
    map key | key in store && key == KeyOf(call) && key !in call.env.lost :: store[key]
  }

  // d is the part of t at one key.
  ghost predicate PartAt(t: Store, d: Store, key: Key) {
    d.Keys <= {key} && (key in t <==> key in d) && (key in t ==> t[key] == d[key])
  }

  lemma RevalidateIsLocal(t: Store, d: Store, call: Call)
    requires UsesStore(call) && PartAt(t, d, KeyOf(call)) && KeyOf(call) in t
    ensures CfRevalidate(t, call).answer == CfRevalidate(d, call).answer
    ensures CfRevalidate(t, call).store == t + CfRevalidate(d, call).store
    ensures CfRevalidate(d, call).store.Keys <= {KeyOf(call)}
  {
    hide CacheableRequest, Freshened, MetaFromResponse, Rebuilt, Accepts, Storable;
    assert t == t + d;
  }

  lemma MissIsLocal(t: Store, d: Store, call: Call)
    requires UsesStore(call) && PartAt(t, d, KeyOf(call))
    ensures CfMiss(t, call).answer == CfMiss(d, call).answer
    ensures CfMiss(t, call).store == t + CfMiss(d, call).store
    ensures CfMiss(d, call).store.Keys <= {KeyOf(call)}
  {
    hide CacheableRequest, MetaFromResponse, Accepts, Storable;
    assert t == t + d;
  }

  // A call reads and writes its own entry only.
  lemma CallIsLocal(dates: Dates, s: Store, call: Call)
    requires UsesStore(call)
    ensures var d := CfGet(dates, Visible(s, call), call);
            CfGet(dates, s, call).answer == d.answer &&
            CfGet(dates, s, call).store == (s - call.env.lost) + d.store &&
            d.store.Keys <= {KeyOf(call)}
  {
    hide CacheableRequest, CfMiss, CfRevalidate, Rebuilt, Classify;
    var t, d, key := s - call.env.lost, Visible(s, call), KeyOf(call);
    assert d - call.env.lost == d;
    assert t == t + d;
    MissIsLocal(t, d, call);
    if key in t {
      RevalidateIsLocal(t, d, call);
    }
  }

  /* ---------- partitions ---------- */

  lemma PartOfUpdated(s: Store, lost: set<Key>, d: Store, p: string)
    ensures PartOf((s - lost) + d, p) == (PartOf(s, p) - lost) + PartOf(d, p)
  {
  }

  // A call under another partition takes from this one exactly what is lost of it.
  lemma OtherPartitionLoses(dates: Dates, store: Store, call: Call, p: string)
    requires call.partition != Some(p)
    ensures PartOf(CfGet(dates, store, call).store, p) == PartOf(store, p) - LostOf(call, p)
  {
    if UsesStore(call) {
      hide CfGet, CacheableRequest, Visible;
      CallIsLocal(dates, store, call);
      var d := CfGet(dates, Visible(store, call), call).store;
      PartOfUpdated(store, call.env.lost, d, p);
      assert PartOf(d, p) == map[];
      assert PartOf(store, p) - call.env.lost == PartOf(store, p) - LostOf(call, p);
    }
  }

  // It leaves this one as it was if and only if nothing stored under it is lost.
  lemma OtherPartitionUntouchedIff(dates: Dates, store: Store, call: Call, p: string)
    requires call.partition != Some(p)
    ensures PartOf(CfGet(dates, store, call).store, p) == PartOf(store, p) <==>
            forall key :: key in store && key.partition == p ==> key !in LostOf(call, p)
  {
    hide CfGet;
    OtherPartitionLoses(dates, store, call, p);
    var part := PartOf(store, p);
    if part - LostOf(call, p) == part {
      forall key | key in store && key.partition == p ensures key !in LostOf(call, p) {
        assert key in part;
      }
    } else {
      assert exists key :: key in part && key in LostOf(call, p);
    }
  }

  // What a call sees and does depends on its own partition alone, as it is after the losses.
  lemma OwnPartitionDecides(dates: Dates, s1: Store, s2: Store, call: Call, pending: set<Key>, p: string)
    requires call.partition == Some(p) && UsesStore(call) && PartOf(s1, p) == PartOf(s2, p) - pending
    ensures CfGet(dates, s1, call).answer == CfGet(dates, s2, Losing(call, pending)).answer
    ensures PartOf(CfGet(dates, s1, call).store, p) == PartOf(CfGet(dates, s2, Losing(call, pending)).store, p)
  {
    hide CfGet;
    var call2 := Losing(call, pending);
    CallIsLocal(dates, s1, call);
    CallIsLocal(dates, s2, call2);
    SameVisible(s1, s2, call, pending, p);
    var v := Visible(s1, call);
    LostBeforehand(dates, v, call, pending);
    var d := CfGet(dates, v, call).store;
    PartOfUpdated(s1, call.env.lost, d, p);
    PartOfUpdated(s2, call2.env.lost, d, p);
    assert PartOf(s2, p) - call2.env.lost == (PartOf(s2, p) - pending) - call.env.lost;
  }

  lemma SameVisible(s1: Store, s2: Store, call: Call, pending: set<Key>, p: string)
    requires call.partition == Some(p) && UsesStore(call) && PartOf(s1, p) == PartOf(s2, p) - pending
    ensures Visible(s1, call) == Visible(s2, Losing(call, pending))
    ensures forall key :: key in Visible(s1, call) ==> key !in pending
  {
    var key := KeyOf(call);
    assert key in s1 <==> key in PartOf(s1, p);
    assert key in s2 && key !in pending <==> key in PartOf(s2, p) - pending;
  }

  // Entries that are not there cannot be lost.
  lemma LostBeforehand(dates: Dates, v: Store, call: Call, pending: set<Key>)
    requires UsesStore(call) && forall key :: key in v ==> key !in pending
    ensures CfGet(dates, v, call) == CfGet(dates, v, Losing(call, pending))
  {
    hide CacheableRequest, Classify, Freshened, Rebuilt, MetaFromResponse, Accepts, Storable;
    assert v - Losing(call, pending).env.lost == v - call.env.lost;
  }

  lemma {:induction false} AnswersOfOwnCalls(dates: Dates, s1: Store, s2: Store, calls: seq<Call>, pending: set<Key>, p: string)
    requires PartOf(s1, p) == PartOf(s2, p) - pending
    ensures AnswersOf(dates, s1, calls, p) == AnswersOf(dates, s2, OwnCalls(calls, p, pending), p)
    decreases |calls|
  {
    hide CfGet, PartOf, UsesStore;
    if calls != [] {
      var call, rest := calls[0], calls[1..];
      var o1 := CfGet(dates, s1, call);
      var own := OwnCalls(calls, p, pending);
      if call.partition != Some(p) {
        OtherPartitionLoses(dates, s1, call, p);
        AnswersOfOwnCalls(dates, o1.store, s2, rest, pending + LostOf(call, p), p);
      } else if UsesStore(call) {
        var call2 := Losing(call, pending);
        OwnPartitionDecides(dates, s1, s2, call, pending, p);
        var o2 := CfGet(dates, s2, call2);
        assert PartOf(o1.store, p) == PartOf(o2.store, p) - {};
        AnswersOfOwnCalls(dates, o1.store, o2.store, rest, {}, p);
        assert own[0] == call2 && own[1..] == OwnCalls(rest, p, {});
      } else {
        RejectedIsDirect(dates, s1, call);
        RejectedIsDirect(dates, s2, call);
        AnswersOfOwnCalls(dates, s1, s2, rest, pending, p);
        assert own[0] == call && own[1..] == OwnCalls(rest, p, pending);
      }
    }
  }

  // In any run, what one partition gets to see, network traffic included, depends on its own calls and on
  // which of its entries were lost between them, and on nothing else that happens under other partitions.
  lemma PartitionsDoNotInterfere(dates: Dates, store: Store, run1: seq<Call>, run2: seq<Call>, p: string)
    requires OwnCalls(run1, p, {}) == OwnCalls(run2, p, {})
    ensures AnswersOf(dates, store, run1, p) == AnswersOf(dates, store, run2, p)
  {
    assert PartOf(store, p) == PartOf(store, p) - {};
    AnswersOfOwnCalls(dates, store, store, run1, {}, p);
    AnswersOfOwnCalls(dates, store, store, run2, {}, p);
  }
}
