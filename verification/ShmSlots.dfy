/** The window's buffer slots (include/shm_slots.h), and the protocol they run with the compositor: commits
  * and releases travel as messages, in any order and after any delay. For any number of slots; the code has 2.
  */
module ShmSlots {
  import opened Wrappers

  const SS_COUNT := 2

  /* ---------- the bookkeeping ---------- */

  // busy: committed and not yet released. back: the slot painted into, or about to be.
  datatype Slots = Slots(busy: seq<bool>, back: nat)

  predicate SlotsOk(s: Slots) {
    s.back < |s.busy|
  }

  function Initial(n: nat): Slots {
    Slots(seq(n, _ => false), 0)
  }

  // The k-th slot the search looks at.
  function Candidate(back: nat, n: nat, k: nat): (i: nat)
    requires n > 0
    ensures i < n
  {
    (back + k) % n
  }

  // The first free slot among back + k, back + k + 1, ..., wrapping around; -1 if there is none.
  function FirstFree(s: Slots, k: nat): (i: int)
    requires SlotsOk(s) && k <= |s.busy|
    ensures -1 <= i < |s.busy|
    decreases |s.busy| - k
  {
    if k == |s.busy| then -1
    else if !s.busy[Candidate(s.back, |s.busy|, k)] then Candidate(s.back, |s.busy|, k)
    else FirstFree(s, k + 1)
  }

  function Pick(s: Slots): (i: int)
    requires SlotsOk(s)
    ensures -1 <= i < |s.busy|
  {
    FirstFree(s, 0)
  }

  function AfterPick(s: Slots): Slots
    requires SlotsOk(s)
  {
    if Pick(s) >= 0 then s.(back := Pick(s)) else s
  }

  function AfterCommit(s: Slots, i: int): Slots {
    if 0 <= i < |s.busy| then Slots(s.busy[i := true], (i + 1) % |s.busy|) else s
  }

  // ss_released answers 1.
  predicate WasBusy(s: Slots, i: int) {
    0 <= i < |s.busy| && s.busy[i]
  }

  function AfterRelease(s: Slots, i: int): Slots {
    if WasBusy(s, i) then s.(busy := s.busy[i := false]) else s
  }

  // When the search looks at slot i.
  function Turn(back: nat, n: nat, i: nat): (k: nat)
    requires back < n && i < n
    ensures k < n && Candidate(back, n, k) == i
  {
    var k := if i >= back then i - back else i + n - back;
    WrapsOnce(back + k, n);
    k
  }

  lemma WrapsOnce(x: nat, n: nat)
    requires 0 < n && x < n + n
    ensures x % n == if x < n then x else x - n
  {
    var q := x / n;
    assert x == q * n + x % n;
    SmallerFactor(q, 2, n);
    assert x >= n ==> 0 * n < q * n;
    SmallerFactor(0, q, n);
  }

  lemma SmallerFactor(a: int, b: int, c: int)
    requires c > 0
    ensures a * c < b * c ==> a < b
  {
    if a >= b {
      assert (a - b) * c >= 0;
    }
  }

  lemma {:induction false} FirstFreeFinds(s: Slots, k: nat, j: nat)
    requires SlotsOk(s) && k <= j < |s.busy|
    ensures FirstFree(s, k) >= 0 ==> !s.busy[FirstFree(s, k)]
    ensures FirstFree(s, k) < 0 ==> s.busy[Candidate(s.back, |s.busy|, j)]
    decreases |s.busy| - k
  {
    hide Candidate;
    if k < j {
      FirstFreeFinds(s, k + 1, j);
    } else if k + 1 < |s.busy| {
      FirstFreeFinds(s, k + 1, k + 1);
    }
  }

  // A picked slot is free, picking fails exactly when every slot is busy, and the current slot is preferred.
  lemma PickFindsFree(s: Slots)
    requires SlotsOk(s)
    ensures Pick(s) >= 0 ==> !s.busy[Pick(s)]
    ensures Pick(s) < 0 <==> forall i :: 0 <= i < |s.busy| ==> s.busy[i]
    ensures !s.busy[s.back] ==> Pick(s) == s.back
  {
    assert Candidate(s.back, |s.busy|, 0) == s.back;
    hide Candidate;
    FirstFreeFinds(s, 0, 0);
    if Pick(s) < 0 {
      forall i | 0 <= i < |s.busy| ensures s.busy[i] {
        FirstFreeFinds(s, 0, Turn(s.back, |s.busy|, i));
      }
    }
  }

  /* ---------- the C structure ---------- */

  class State {
    const busy: array<bool>
    var back: nat

    ghost predicate Valid()
      reads this
    {
      back < busy.Length
    }

    function Model(): Slots
      reads this, busy
    {
      Slots(busy[..], back)
    }

    // ss_init, for n slots.
    constructor (n: nat)
      requires n > 0
      ensures Valid() && fresh(busy) && Model() == Initial(n)
    {
      busy := new bool[n](_ => false);
      back := 0;
    }

    method SsPick() returns (slot: int)
      requires Valid()
      modifies this
      ensures Valid() && slot == Pick(old(Model())) && Model() == AfterPick(old(Model()))
    {
      for k := 0 to busy.Length
        invariant back == old(back)
        invariant FirstFree(Model(), k) == Pick(Model())
      {
        var i := Candidate(back, busy.Length, k);
        if !busy[i] {
          back := i;
          return i;
        }
      }
      return -1;
    }

    method SsCommitted(i: int)
      requires Valid()
      modifies this, busy
      ensures Valid() && Model() == AfterCommit(old(Model()), i)
    {
      if i >= 0 && i < busy.Length {
        busy[i] := true;
        back := (i + 1) % busy.Length;
      }
    }

    method SsReleased(i: int) returns (was: bool)
      requires Valid()
      modifies busy
      ensures Valid() && was == WasBusy(old(Model()), i) && Model() == AfterRelease(old(Model()), i)
    {
      if i < 0 || i >= busy.Length || !busy[i] {
        return false;
      }
      busy[i] := false;
      return true;
    }
  }

  /* ---------- the protocol ---------- */

  // The client's bookkeeping and the slot it is painting into; commits on their way to the compositor; the
  // buffers the compositor may read; releases on their way back.
  datatype World = World(
    slots: Slots,
    painting: Option<nat>,
    commits: multiset<nat>,
    held: set<nat>,
    releases: multiset<nat>
  )

  // What may happen next: the client picks a slot and paints, or commits what it painted; the compositor
  // receives a commit, or lets go of a buffer; the client receives a release.
  datatype Event = Paint | Commit | Receive(i: nat) | LetGo(i: nat) | Deliver(i: nat)

  // An event that cannot happen now changes nothing.
  function Step(w: World, e: Event): World
    requires SlotsOk(w.slots)
  {
    match e
    case Paint =>
      var i := Pick(w.slots);
      w.(slots := AfterPick(w.slots), painting := if i >= 0 then Some(i) else None)
    case Commit =>
      if w.painting.None? then w
      else w.(slots := AfterCommit(w.slots, w.painting.value), painting := None, commits := w.commits + multiset{w.painting.value})
    case Receive(i) =>
      if i in w.commits then w.(commits := w.commits - multiset{i}, held := w.held + {i}) else w
    case LetGo(i) =>
      if i in w.held then w.(held := w.held - {i}, releases := w.releases + multiset{i}) else w
    case Deliver(i) =>
      if i in w.releases then w.(slots := AfterRelease(w.slots, i), releases := w.releases - multiset{i}) else w
  }

  function Start(n: nat): World {
    World(Initial(n), None, multiset{}, {}, multiset{})
  }

  function HeldCount(w: World, i: nat): nat {
    if i in w.held then 1 else 0
  }

  ghost predicate InOnePlace(w: World, i: nat) {
    w.commits[i] + HeldCount(w, i) + w.releases[i] == if WasBusy(w.slots, i) then 1 else 0
  }

  // Each busy slot is in exactly one place: on its way to the compositor, with it, or on its way back.
  // A slot being painted is in none.
  ghost predicate Invariant(w: World) {
    && SlotsOk(w.slots)
    && (forall i: nat :: InOnePlace(w, i))
    && (w.painting.Some? ==> w.painting.value < |w.slots.busy| && !w.slots.busy[w.painting.value])
  }

  lemma StepKeepsInvariant(w: World, e: Event)
    requires Invariant(w)
    ensures Invariant(Step(w, e)) && |Step(w, e).slots.busy| == |w.slots.busy|
  {
    hide Pick;
    PickFindsFree(w.slots);
    var w' := Step(w, e);
    forall i: nat ensures InOnePlace(w', i) {
      assert InOnePlace(w, i);
      assert e.Receive? || e.LetGo? || e.Deliver? ==> InOnePlace(w, e.i);
      StepKeepsPlace(w, e, i);
    }
    if e.Deliver? {
      assert InOnePlace(w, e.i);
    }
  }

  lemma StepKeepsPlace(w: World, e: Event, i: nat)
    requires SlotsOk(w.slots) && InOnePlace(w, i)
    requires e.Receive? || e.LetGo? || e.Deliver? ==> InOnePlace(w, e.i)
    requires w.painting.Some? ==> w.painting.value < |w.slots.busy| && !w.slots.busy[w.painting.value]
    ensures InOnePlace(Step(w, e), i)
  {
    hide Pick;
  }

  function Run(w: World, events: seq<Event>): World
    requires Invariant(w)
    ensures Invariant(Run(w, events)) && |Run(w, events).slots.busy| == |w.slots.busy|
  {
    if events == [] then w
    else
      var before := Run(w, events[..|events| - 1]);
      StepKeepsInvariant(before, events[|events| - 1]);
      Step(before, events[|events| - 1])
  }

  lemma StartIsInvariant(n: nat)
    requires n > 0
    ensures Invariant(Start(n))
  {
  }

  // Some message about the slot is in flight, or the compositor holds its buffer.
  predicate Outstanding(w: World, i: nat) {
    i in w.commits || i in w.held || i in w.releases
  }

  // In every reachable state, for any number of slots: a slot is busy exactly when it is outstanding; the
  // client never paints a slot the compositor reads or may yet read; and picking fails exactly when every slot
  // is outstanding.
  lemma NeverPaintsWhatIsRead(n: nat, events: seq<Event>)
    requires n > 0
    ensures Invariant(Start(n))
    ensures var w := Run(Start(n), events);
            && (forall i: nat :: WasBusy(w.slots, i) <==> Outstanding(w, i))
            && (w.painting.Some? ==> !Outstanding(w, w.painting.value))
            && (Pick(w.slots) < 0 <==> forall i :: 0 <= i < n ==> Outstanding(w, i))
  {
    hide Run, Pick;
    StartIsInvariant(n);
    var w := Run(Start(n), events);
    PickFindsFree(w.slots);
    forall i: nat ensures WasBusy(w.slots, i) <==> Outstanding(w, i) {
      BusyIffOutstanding(w, i);
    }
    assert forall i: nat :: i < n ==> (WasBusy(w.slots, i) <==> w.slots.busy[i]);
  }

  lemma BusyIffOutstanding(w: World, i: nat)
    requires Invariant(w)
    ensures WasBusy(w.slots, i) <==> Outstanding(w, i)
  {
    assert InOnePlace(w, i);
  }

  // Any release that arrives frees a slot the client had busy, and painting is possible again.
  lemma ReleaseReenablesPainting(n: nat, events: seq<Event>, i: nat)
    requires n > 0
    ensures Invariant(Start(n))
    ensures var w := Run(Start(n), events);
            i in w.releases ==> WasBusy(w.slots, i) && Pick(Step(w, Deliver(i)).slots) >= 0
  {
    StartIsInvariant(n);
    var w := Run(Start(n), events);
    if i in w.releases {
      assert InOnePlace(w, i);
      var s := Step(w, Deliver(i)).slots;
      PickFindsFree(s);
      assert !s.busy[i];
    }
  }

  // The window never gets stuck: when no slot can be picked, a message is on its way or the compositor
  // holds a buffer it can let go of.
  lemma DeferredPaintHasCause(n: nat, events: seq<Event>)
    requires n > 0
    ensures Invariant(Start(n))
    ensures var w := Run(Start(n), events);
            Pick(w.slots) < 0 ==> w.commits != multiset{} || w.held != {} || w.releases != multiset{}
  {
    NeverPaintsWhatIsRead(n, events);
    var w := Run(Start(n), events);
    if Pick(w.slots) < 0 {
      assert Outstanding(w, 0);
    }
  }

  // Painting is never put off without need: if some slot is not outstanding, a slot is painted, it is not
  // outstanding, and it is the current one from then on.
  lemma PaintsWhenItCan(n: nat, events: seq<Event>, i: nat)
    requires i < n
    ensures Invariant(Start(n))
    ensures var w := Run(Start(n), events);
            var w' := Step(w, Paint);
            !Outstanding(w, i) ==> w'.painting.Some? && !Outstanding(w', w'.painting.value) && w'.slots.back == w'.painting.value
  {
    StartIsInvariant(n);
    var w := Run(Start(n), events);
    BusyIffOutstanding(w, i);
    PickFindsFree(w.slots);
    StepKeepsInvariant(w, Paint);
    if !Outstanding(w, i) {
      assert !w.slots.busy[i];
      BusyIffOutstanding(Step(w, Paint), Pick(w.slots));
    }
  }

  // With two slots, painting goes to the other one after a commit, if the compositor has released it.
  lemma TwoSlotsAlternate(s: Slots, i: nat)
    requires |s.busy| == SS_COUNT && i < SS_COUNT
    ensures !s.busy[1 - i] ==> Pick(AfterCommit(s, i)) == 1 - i
    ensures s.busy[1 - i] ==> Pick(AfterCommit(s, i)) == -1
  {
    PickFindsFree(AfterCommit(s, i));
  }
}
