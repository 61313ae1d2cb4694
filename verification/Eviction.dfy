/** Keeping the cache within its size (src/http_cache.c, evict): the oldest files go first, whatever
  * partition they belong to.
  */
module Eviction {
  const HC_MAX_TOTAL := 128 * 1024 * 1024
  const TARGET := HC_MAX_TOTAL / 10 * 9

  // A file of the cache directory. The name says nothing about partition or URL.
  datatype File = File(mtime: int, size: nat, name: string)

  function Total(v: seq<File>): nat {
    if v == [] then 0 else Total(v[..|v| - 1]) + v[|v| - 1].size
  }

  // The sizes of the files older than t.
  function Older(v: seq<File>, t: int): nat {
    if v == [] then 0
    else Older(v[..|v| - 1], t) + if v[|v| - 1].mtime < t then v[|v| - 1].size else 0
  }

  // The first of the oldest files from i on, with `best` the oldest before i.
  function OldestFrom(v: seq<File>, i: nat, best: nat): (k: nat)
    requires best < i <= |v|
    ensures k < |v|
    decreases |v| - i
  {
    if i == |v| then best else OldestFrom(v, i + 1, if v[i].mtime < v[best].mtime then i else best)
  }

  function Oldest(v: seq<File>): (k: nat)
    requires v != []
    ensures k < |v|
  {
    OldestFrom(v, 1, 0)
  }

  // The last file takes the place of the k-th.
  function Drop(v: seq<File>, k: nat): (d: seq<File>)
    requires k < |v|
    ensures |d| == |v| - 1
  {
    v[k := v[|v| - 1]][..|v| - 1]
  }

  // What is left when files are dropped, oldest first, until `total` is within the target.
  function Survivors(v: seq<File>, total: int): seq<File>
    decreases |v|
  {
    if total > TARGET && v != [] then Survivors(Drop(v, Oldest(v)), total - v[Oldest(v)].size) else v
  }

  function Kept(v: seq<File>): seq<File> {
    if Total(v) > HC_MAX_TOTAL then Survivors(v, Total(v)) else v
  }

  ghost predicate Tried(gone: seq<File>, stuck: seq<File>, unlinks: File -> bool) {
    (forall f :: f in gone ==> unlinks(f)) && (forall f :: f in stuck ==> !unlinks(f))
  }

  // Every file stays, is gone, or could not be removed.
  ghost predicate Accounted(kept: seq<File>, gone: seq<File>, stuck: seq<File>, all: seq<File>) {
    multiset(kept) + multiset(gone) + multiset(stuck) == multiset(all)
  }

  lemma NothingTried(unlinks: File -> bool, all: seq<File>)
    ensures Tried([], [], unlinks) && Accounted(all, [], [], all)
  {
  }

  lemma DropAccounted(v: seq<File>, k: nat, gone: seq<File>, stuck: seq<File>, gone': seq<File>, stuck': seq<File>, all: seq<File>)
    requires k < |v| && Accounted(v, gone, stuck, all)
    requires multiset(gone') + multiset(stuck') == multiset(gone) + multiset(stuck) + multiset{v[k]}
    ensures Accounted(Drop(v, k), gone', stuck', all)
  {
    hide Drop;
    DropTakesOne(v, k);
    var d := Drop(v, k);
    forall f ensures (multiset(d) + multiset(gone') + multiset(stuck'))[f] == multiset(all)[f] {
      assert (multiset(gone') + multiset(stuck'))[f] == (multiset(gone) + multiset(stuck) + multiset{v[k]})[f];
      assert multiset(v)[f] == (multiset(d) + multiset{v[k]})[f];
      assert (multiset(v) + multiset(gone) + multiset(stuck))[f] == multiset(all)[f];
    }
  }

  method Unlink(f: File, unlinks: File -> bool, gone: seq<File>, stuck: seq<File>) returns (gone': seq<File>, stuck': seq<File>)
    requires Tried(gone, stuck, unlinks)
    ensures Tried(gone', stuck', unlinks)
    ensures multiset(gone') + multiset(stuck') == multiset(gone) + multiset(stuck) + multiset{f}
  {
    gone', stuck' := gone, stuck;
    if unlinks(f) {
      gone' := gone + [f];
    } else {
      stuck' := stuck + [f];
    }
  }

  // evict, on the files the scan of the directory has found; `unlinks` says which it can remove. A file that
  // it cannot remove counts as gone all the same, and stays.
  method Evict(v: array<File>, n: nat, unlinks: File -> bool) returns (m: nat, gone: seq<File>, stuck: seq<File>)
    requires n <= v.Length
    modifies v
    ensures m <= n && v[..m] == Kept(old(v[..n]))
    ensures Accounted(v[..m], gone, stuck, old(v[..n]))
    ensures Tried(gone, stuck, unlinks)
  {
    hide Drop, Oldest, Total, Tried, Accounted;
    NothingTried(unlinks, v[..n]);
    ghost var was := v[..n];
    var total := SumSizes(v, n);
    m, gone, stuck := n, [], [];
    if total <= HC_MAX_TOTAL {
      return;
    }
    while total > TARGET && m > 0
      invariant 0 <= m <= n
      invariant Survivors(v[..m], total) == Survivors(was, Total(was))
      invariant Accounted(v[..m], gone, stuck, was)
      invariant Tried(gone, stuck, unlinks)
    {
      var oldest := FindOldest(v, m);
      ghost var files, gone0, stuck0 := v[..m], gone, stuck;
      gone, stuck := Unlink(v[oldest], unlinks, gone, stuck);
      DropAccounted(files, oldest, gone0, stuck0, gone, stuck, was);
      total := total - v[oldest].size;
      DropFile(v, m, oldest);
      m := m - 1;
    }
  }

  // The last of the first m files takes the place of the k-th.
  method DropFile(v: array<File>, m: nat, k: nat)
    requires k < m <= v.Length
    modifies v
    ensures v[..m - 1] == Drop(old(v[..m]), k)
  {
    v[k] := v[m - 1];
  }

  method SumSizes(v: array<File>, n: nat) returns (total: int)
    requires n <= v.Length
    ensures total == Total(v[..n])
  {
    total := 0;
    for i := 0 to n
      invariant total == Total(v[..i])
    {
      assert v[..i + 1][..i] == v[..i];
      total := total + v[i].size;
    }
  }

  method FindOldest(v: array<File>, n: nat) returns (oldest: nat)
    requires 0 < n <= v.Length
    ensures oldest == Oldest(v[..n])
  {
    oldest := 0;
    for i := 1 to n
      invariant 0 <= oldest < i
      invariant OldestFrom(v[..n], i, oldest) == Oldest(v[..n])
    {
      if v[i].mtime < v[oldest].mtime {
        oldest := i;
      }
    }
  }

  lemma {:induction false} OldestIsOldest(v: seq<File>, i: nat, best: nat)
    requires best < i <= |v| && forall k :: 0 <= k < i ==> v[best].mtime <= v[k].mtime
    ensures forall k :: 0 <= k < |v| ==> v[OldestFrom(v, i, best)].mtime <= v[k].mtime
    decreases |v| - i
  {
    if i < |v| {
      OldestIsOldest(v, i + 1, if v[i].mtime < v[best].mtime then i else best);
    }
  }

  // Drop is the prefix, with one file replaced by the last.
  lemma DropIsPrefix(v: seq<File>, k: nat)
    requires k < |v|
    ensures Drop(v, k) == if k == |v| - 1 then v[..|v| - 1] else v[..|v| - 1][k := v[|v| - 1]]
  {
  }

  lemma DropTakesOne(v: seq<File>, k: nat)
    requires k < |v|
    ensures multiset(v) == multiset(Drop(v, k)) + multiset{v[k]}
  {
    hide Drop;
    DropIsPrefix(v, k);
    assert v == v[..|v| - 1] + [v[|v| - 1]];
  }

  lemma DropTotal(v: seq<File>, k: nat)
    requires k < |v|
    ensures Total(v) == Total(Drop(v, k)) + v[k].size
  {
    hide Drop;
    DropIsPrefix(v, k);
    if k < |v| - 1 {
      TotalOfReplaced(v[..|v| - 1], k, v[|v| - 1]);
    }
  }

  lemma DropOlder(v: seq<File>, k: nat, t: int)
    requires k < |v|
    ensures Older(v, t) == Older(Drop(v, k), t) + if v[k].mtime < t then v[k].size else 0
  {
    hide Drop;
    DropIsPrefix(v, k);
    if k < |v| - 1 {
      OlderOfReplaced(v[..|v| - 1], k, v[|v| - 1], t);
    }
  }

  lemma {:induction false} TotalOfReplaced(v: seq<File>, k: nat, f: File)
    requires k < |v|
    ensures Total(v[k := f]) + v[k].size == Total(v) + f.size
    decreases |v|
  {
    var last := |v| - 1;
    if k == last {
      assert v[k := f][..last] == v[..last];
    } else {
      assert v[k := f][..last] == v[..last][k := f];
      TotalOfReplaced(v[..last], k, f);
    }
  }

  lemma {:induction false} OlderOfReplaced(v: seq<File>, k: nat, f: File, t: int)
    requires k < |v|
    ensures Older(v[k := f], t) + (if v[k].mtime < t then v[k].size else 0) == Older(v, t) + if f.mtime < t then f.size else 0
    decreases |v|
  {
    var last := |v| - 1;
    if k == last {
      assert v[k := f][..last] == v[..last];
    } else {
      assert v[k := f][..last] == v[..last][k := f];
      OlderOfReplaced(v[..last], k, f, t);
    }
  }

  // The sizes of the files no newer than t.
  function NotNewer(v: seq<File>, t: int): nat {
    Older(v, t + 1)
  }

  // One name, one file.
  ghost predicate DistinctFiles(v: seq<File>) {
    forall i, j :: 0 <= i < j < |v| ==> v[i] != v[j]
  }

  lemma DropKeepsDistinct(v: seq<File>, k: nat)
    requires k < |v| && DistinctFiles(v)
    ensures DistinctFiles(Drop(v, k))
    ensures forall e :: e in Drop(v, k) <==> e in v && e != v[k]
  {
    var d, last := Drop(v, k), |v| - 1;
    forall e | e in v && e != v[k] ensures e in d {
      var i :| 0 <= i < |v| && v[i] == e;
      assert if i == last then d[k] == e else d[i] == e;
    }
  }

  // Nothing is older than the oldest.
  lemma {:induction false} NoneOlder(v: seq<File>, t: int)
    requires forall e :: e in v ==> t <= e.mtime
    ensures Older(v, t) == 0
    decreases |v|
  {
    if v != [] {
      NoneOlder(v[..|v| - 1], t);
    }
  }

  lemma OldestIsMin(v: seq<File>)
    requires v != []
    ensures forall f :: f in v ==> v[Oldest(v)].mtime <= f.mtime
  {
    OldestIsOldest(v, 1, 0);
  }

  // Dropping all that is older is enough: the file stays.
  lemma {:induction false} StaysIf(v: seq<File>, total: int, e: File)
    requires DistinctFiles(v) && e in v && total - Older(v, e.mtime) <= TARGET
    ensures e in Survivors(v, total)
    decreases |v|
  {
    hide Older, Drop, Oldest, DistinctFiles;
    if total > TARGET {
      var o := Oldest(v);
      OldestIsMin(v);
      DropKeepsDistinct(v, o);
      DropOlder(v, o, e.mtime);
      if v[o].mtime == e.mtime {
        NoneOlder(v, e.mtime);
        assert false;
      }
      StaysIf(Drop(v, o), total - v[o].size, e);
    }
  }

  // Dropping all others no newer is not enough: the file goes.
  lemma {:induction false} GoesIf(v: seq<File>, total: int, e: File)
    requires DistinctFiles(v) && e in v && total - (NotNewer(v, e.mtime) - e.size) > TARGET
    ensures e !in Survivors(v, total)
    decreases |v|
  {
    hide Older, Drop, Oldest, DistinctFiles;
    var o := Oldest(v);
    OldestIsMin(v);
    DropKeepsDistinct(v, o);
    DropOlder(v, o, e.mtime + 1);
    OwnSize(v, e);
    if e == v[o] {
      SurvivorsAreSome(Drop(v, o), total - v[o].size);
    } else {
      GoesIf(Drop(v, o), total - v[o].size, e);
    }
  }

  lemma {:induction false} OwnSize(v: seq<File>, e: File)
    requires e in v
    ensures NotNewer(v, e.mtime) >= e.size
    decreases |v|
  {
    if e != v[|v| - 1] {
      OwnSize(v[..|v| - 1], e);
    }
  }

  // Alone in its second, a file weighs what lies between the two sums.
  lemma {:induction false} AloneInItsSecond(v: seq<File>, e: File)
    requires DistinctFiles(v) && forall f :: f in v && f != e ==> f.mtime != e.mtime
    ensures NotNewer(v, e.mtime) == Older(v, e.mtime) + if e in v then e.size else 0
    decreases |v|
  {
    if v != [] {
      var front, last := v[..|v| - 1], v[|v| - 1];
      AloneInItsSecond(front, e);
      assert e in v <==> e in front || e == last;
      if e == last {
        assert forall i :: 0 <= i < |front| ==> front[i] == v[i] != e;
      }
    }
  }

  lemma {:induction false} SurvivorsAreSome(v: seq<File>, total: int)
    ensures forall e :: e in Survivors(v, total) ==> e in v
    decreases |v|
  {
    if total > TARGET && v != [] {
      var d := Drop(v, Oldest(v));
      SurvivorsAreSome(d, total - v[Oldest(v)].size);
      DropTakesOne(v, Oldest(v));
      forall e | e in d ensures e in v {
        assert e in multiset(d);
      }
    }
  }

  // A file goes only if the directory exceeds its limit and dropping all that is older would not yet bring
  // it down to the target; and it goes for certain if dropping all others of its own second too would not.
  // Sizes and times decide, so one partition's files can push out another's.
  lemma EvictedBounds(v: seq<File>, e: File)
    requires DistinctFiles(v) && e in v
    ensures e !in Kept(v) ==> Total(v) > 134217728 && Total(v) - Older(v, e.mtime) > 120795948
    ensures Total(v) > 134217728 && Total(v) - (NotNewer(v, e.mtime) - e.size) > 120795948 ==> e !in Kept(v)
  {
    if Total(v) - Older(v, e.mtime) <= 120795948 {
      StaysIf(v, Total(v), e);
    }
    if Total(v) - (NotNewer(v, e.mtime) - e.size) > 120795948 {
      GoesIf(v, Total(v), e);
    }
  }

  // For a file that no other shares its second with, the two bounds meet.
  lemma EvictedIff(v: seq<File>, e: File)
    requires DistinctFiles(v) && e in v && forall f :: f in v && f != e ==> f.mtime != e.mtime
    ensures e !in Kept(v) <==> Total(v) > 134217728 && Total(v) - Older(v, e.mtime) > 120795948
  {
    EvictedBounds(v, e);
    AloneInItsSecond(v, e);
  }

  // The files that stay fit the target, unless everything fitted the limit before.
  lemma {:induction false} SurvivorsFit(v: seq<File>)
    ensures Total(Survivors(v, Total(v))) <= TARGET
    decreases |v|
  {
    if Total(v) > TARGET {
      DropTotal(v, Oldest(v));
      SurvivorsFit(Drop(v, Oldest(v)));
    }
  }

  // So the directory fits its limit afterwards, but for the files that could not be removed.
  lemma KeptFits(v: seq<File>, stuck: seq<File>)
    ensures Total(Kept(v) + stuck) <= 134217728 + Total(stuck)
  {
    SurvivorsFit(v);
    TotalOfConcat(Kept(v), stuck);
  }

  lemma {:induction false} TotalOfConcat(v: seq<File>, w: seq<File>)
    ensures Total(v + w) == Total(v) + Total(w)
    decreases |w|
  {
    if w == [] {
      assert v + w == v;
    } else {
      assert (v + w)[..|v + w| - 1] == v + w[..|w| - 1];
      TotalOfConcat(v, w[..|w| - 1]);
    }
  }
}
