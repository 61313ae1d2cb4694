/** Frame pacing (include/media_decoder.h, md_pace_due_ms), in the wrap-around arithmetic the C code uses,
  * over whole runs with an arbitrary clock and an arbitrary stream.
  */
module Pacer {
  import opened Words

  const MAX_LAG_MS: Word := 500
  const MAX_STEP_MS: Word := 5000

  type Int64 = x: int | -0x8000_0000_0000_0000 <= x < 0x8000_0000_0000_0000

  datatype State = State(epochMs: Word, pts0Us: Int64, primed: bool)

  // One call: the wall clock and the frame's timestamp.
  datatype Frame = Frame(nowMs: Word, ptsUs: Int64)

  /* ---------- one call ---------- */

  // The instant the schedule gives the frame, before any sanity check.
  function Nominal(s: State, f: Frame): Word {
    Plus(s.epochMs, Wrap(Wrap(f.ptsUs) - Wrap(s.pts0Us)) / 1000)
  }

  // Whether the frame keeps to the schedule; if not, the schedule is re-anchored at it.
  predicate Keeps(s: State, f: Frame) {
    && s.primed && f.ptsUs >= s.pts0Us
    && Nominal(s, f) >= s.epochMs
    && Nominal(s, f) <= Plus(f.nowMs, MAX_STEP_MS)
    && f.nowMs <= Plus(Nominal(s, f), MAX_LAG_MS)
  }

  function Next(s: State, f: Frame): State {
    if Keeps(s, f) then s else State(f.nowMs, f.ptsUs, true)
  }

  function Due(s: State, f: Frame): Word {
    if Keeps(s, f) then Nominal(s, f) else f.nowMs
  }

  class Pacer {
    var epochMs: Word
    var pts0Us: Int64
    var primed: bool

    function Model(): State
      reads this
    {
      State(epochMs, pts0Us, primed)
    }

    constructor ()
      ensures !primed
    {
      epochMs, pts0Us, primed := 0, 0, false;
    }
  }

  // md_pace_due_ms; a NULL pacer answers "now".
  method PaceDueMs(p: Pacer?, nowMs: Word, ptsUs: Int64) returns (due: Word)
    modifies if p == null then {} else {p}
    ensures p == null ==> due == nowMs
    ensures p != null ==> p.Model() == Next(old(p.Model()), Frame(nowMs, ptsUs)) && due == Due(old(p.Model()), Frame(nowMs, ptsUs))
  {
    if p == null {
      return nowMs;
    }
    if p.primed && ptsUs >= p.pts0Us {
      var deltaMs := Wrap(Wrap(ptsUs) - Wrap(p.pts0Us)) / 1000;
      due := Plus(p.epochMs, deltaMs);
      if due >= p.epochMs && due <= Plus(nowMs, MAX_STEP_MS) && nowMs <= Plus(due, MAX_LAG_MS) {
        return;
      }
    }
    p.epochMs := nowMs;
    p.pts0Us := ptsUs;
    p.primed := true;
    return nowMs;
  }

  /* ---------- what one call guarantees ---------- */

  // The unsigned subtraction is exact once the backwards branch is excluded, and a due time that passes
  // the wrap-around check is the true sum.
  lemma NominalIsExact(s: State, f: Frame)
    requires f.ptsUs >= s.pts0Us
    ensures Wrap(Wrap(f.ptsUs) - Wrap(s.pts0Us)) == f.ptsUs - s.pts0Us
    ensures Nominal(s, f) >= s.epochMs <==> s.epochMs + (f.ptsUs - s.pts0Us) / 1000 < MODULUS
    ensures Nominal(s, f) >= s.epochMs ==> Nominal(s, f) == s.epochMs + (f.ptsUs - s.pts0Us) / 1000
  {
    var d := f.ptsUs - s.pts0Us;
    UnsignedDifference(f.ptsUs, s.pts0Us);
    hide Wrap;
    SumAfterCheck(s.epochMs, d / 1000);
  }

  lemma OfInt64(x: Int64)
    ensures Wrap(x) == if x >= 0 then x else x + MODULUS
  {
    if x < 0 {
      WrapUnique(x, x + MODULUS, -1);
    }
  }

  lemma UnsignedDifference(a: Int64, b: Int64)
    requires a >= b
    ensures Wrap(Wrap(a) - Wrap(b)) == a - b
  {
    OfInt64(a);
    OfInt64(b);
    var k := if a >= 0 && b < 0 then -1 else 0;
    WrapUnique(Wrap(a) - Wrap(b), a - b, k);
  }

  lemma SumAfterCheck(a: Word, b: Word)
    ensures Plus(a, b) >= a <==> a + b < MODULUS
    ensures Plus(a, b) >= a ==> Plus(a, b) == a + b
  {
    if a + b >= MODULUS {
      WrapUnique(a + b, a + b - MODULUS, 1);
    }
  }

  // No frame is ever due more than 500 ms ago or more than 5 s ahead, whatever the state, the clock and the
  // timestamp are, wrap-around included.
  lemma DueIsNearNow(s: State, f: Frame)
    ensures f.nowMs - 500 <= Due(s, f) <= f.nowMs + 5000
  {
    if Keeps(s, f) {
      var due := Nominal(s, f);
      if f.nowMs + MAX_STEP_MS >= MODULUS {
        WrapUnique(f.nowMs + MAX_STEP_MS, f.nowMs + MAX_STEP_MS - MODULUS, 1);
      }
      if due + MAX_LAG_MS >= MODULUS {
        WrapUnique(due + MAX_LAG_MS, due + MAX_LAG_MS - MODULUS, 1);
      }
    }
  }

  // Away from the end of the 64-bit clock the checks are the ones meant, on true sums: keep the schedule
  // exactly when it puts the frame between 500 ms ago and 5 s ahead.
  lemma KeepsIff(s: State, f: Frame)
    requires f.nowMs + MAX_STEP_MS + MAX_LAG_MS < MODULUS
    ensures Keeps(s, f) <==>
            s.primed && f.ptsUs >= s.pts0Us &&
            f.nowMs - 500 <= s.epochMs + (f.ptsUs - s.pts0Us) / 1000 <= f.nowMs + 5000
  {
    if f.ptsUs >= s.pts0Us {
      NominalIsExact(s, f);
    }
  }

  /* ---------- runs ---------- */

  function StateAfter(s: State, frames: seq<Frame>): State {
    if frames == [] then s else Next(StateAfter(s, frames[..|frames| - 1]), frames[|frames| - 1])
  }

  function DueAt(s: State, frames: seq<Frame>, n: nat): Word
    requires n < |frames|
  {
    Due(StateAfter(s, frames[..n]), frames[n])
  }

  predicate KeepsAt(s: State, frames: seq<Frame>, n: nat)
    requires n < |frames|
  {
    Keeps(StateAfter(s, frames[..n]), frames[n])
  }

  lemma StateSteps(s: State, frames: seq<Frame>, n: nat)
    requires n < |frames|
    ensures StateAfter(s, frames[..n + 1]) == Next(StateAfter(s, frames[..n]), frames[n])
  {
    assert frames[..n + 1][..n] == frames[..n];
  }

  // The state stays the anchor's for as long as the schedule is kept.
  lemma {:induction false} AnchorHolds(s: State, frames: seq<Frame>, m: nat, n: nat)
    requires m < n <= |frames| && !KeepsAt(s, frames, m)
    requires forall k :: m < k < n ==> KeepsAt(s, frames, k)
    ensures StateAfter(s, frames[..n]) == State(frames[m].nowMs, frames[m].ptsUs, true)
    decreases n
  {
    hide Keeps;
    StateSteps(s, frames, n - 1);
    assert KeepsAt(s, frames, n - 1) || n - 1 == m;
    if n - 1 > m {
      AnchorHolds(s, frames, m, n - 1);
    }
  }

  // No drift: between re-anchors every due time is the anchor's instant plus the whole milliseconds of
  // stream time since the anchor, however many frames lie between.
  lemma NoDrift(s: State, frames: seq<Frame>, m: nat, n: nat)
    requires m < n < |frames| && !KeepsAt(s, frames, m)
    requires forall k :: m < k <= n ==> KeepsAt(s, frames, k)
    ensures frames[n].ptsUs >= frames[m].ptsUs
    ensures DueAt(s, frames, n) == frames[m].nowMs + (frames[n].ptsUs - frames[m].ptsUs) / 1000
    ensures DueAt(s, frames, m) == frames[m].nowMs
  {
    hide Nominal;
    AnchorHolds(s, frames, m, n);
    var anchor := StateAfter(s, frames[..n]);
    assert KeepsAt(s, frames, n);
    NominalIsExact(anchor, frames[n]);
  }

  // After a call the due time is the new state's own schedule for that frame.
  lemma DueIsNominal(s: State, f: Frame)
    ensures var s' := Next(s, f);
            s'.primed && f.ptsUs >= s'.pts0Us && Due(s, f) == s'.epochMs + (f.ptsUs - s'.pts0Us) / 1000
  {
    if Keeps(s, f) {
      NominalIsExact(s, f);
    }
  }

  lemma NextDueNotEarlier(s: State, f: Frame, g: Frame)
    requires g.ptsUs >= f.ptsUs && g.nowMs >= Due(s, f)
    ensures Due(Next(s, f), g) >= Due(s, f)
  {
    DueIsNominal(s, f);
    DueIsNominal(Next(s, f), g);
    var s' := Next(s, f);
    if Keeps(s', g) {
      assert (g.ptsUs - s'.pts0Us) / 1000 >= (f.ptsUs - s'.pts0Us) / 1000;
    }
  }

  // A caller that never asks before the previous frame was due, on a stream whose timestamps do not go
  // back, never sees a due time go back.
  lemma {:induction false} DueTimesNeverDecrease(s: State, frames: seq<Frame>, m: nat, n: nat)
    requires m <= n < |frames|
    requires forall k :: 0 < k < |frames| ==> frames[k].ptsUs >= frames[k - 1].ptsUs
    requires forall k :: 0 < k < |frames| ==> frames[k].nowMs >= DueAt(s, frames, k - 1)
    ensures DueAt(s, frames, m) <= DueAt(s, frames, n)
    decreases n
  {
    hide Due, Next;
    if m < n {
      DueTimesNeverDecrease(s, frames, m, n - 1);
      StateSteps(s, frames, n - 1);
      NextDueNotEarlier(StateAfter(s, frames[..n - 1]), frames[n - 1], frames[n]);
    }
  }
}
