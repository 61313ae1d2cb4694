/** Stacking contexts and paint order (src/compositor.c; CSS 2.1 Appendix E). */
module Compositor {
  import opened Wrappers

  /* ---------- classification ---------- */

  const POS_RELATIVE := 2
  const POS_ABSOLUTE := 3
  const POS_FIXED := 4
  const POS_STICKY := 5
  const MB_NORMAL := 1
  const ISO_ISOLATE := 2

  datatype Style = Style(
    position: int,
    zIndex: int,
    zAuto: bool,
    opacity: int,
    mixBlend: int,
    isolation: int,
    isFloat: bool,
    isInline: bool,
    hasTransform: bool
  )

  // Back to front.
  datatype Layer = RootBg | NegZ | Block | Float | Inline | ZeroZ | PosZ {
    function Rank(): nat {
      match this
      case RootBg => 0
      case NegZ => 1
      case Block => 2
      case Float => 3
      case Inline => 4
      case ZeroZ => 5
      case PosZ => 6
    }
  }

  predicate IsPositioned(position: int) {
    position == POS_RELATIVE || position == POS_ABSOLUTE || position == POS_FIXED || position == POS_STICKY
  }

  predicate FormsStackingContext(s: Option<Style>) {
    match s
    case None => false
    case Some(st) =>
      if 0 <= st.opacity < 100 then true
      else if st.mixBlend > MB_NORMAL then true
      else if st.isolation == ISO_ISOLATE then true
      else if st.hasTransform then true
      else if (st.position == POS_RELATIVE || st.position == POS_ABSOLUTE) && !st.zAuto then true
      else st.position == POS_FIXED || st.position == POS_STICKY
  }

  function BoxLayer(s: Option<Style>): Layer {
    match s
    case None => Block
    case Some(st) =>
      if FormsStackingContext(s) then
        if !st.zAuto && st.zIndex < 0 then NegZ
        else if !st.zAuto && st.zIndex > 0 then PosZ
        else ZeroZ
      else if IsPositioned(st.position) then ZeroZ
      else if st.isFloat then Float
      else if st.isInline then Inline
      else Block
  }

  // A z-index moves a box to another layer only by making it, or finding it, a stacking context; and it makes
  // one only of a relative or absolute box.
  lemma ZIndexNeedsContext(s: Style, z: int, auto: bool)
    ensures var t := s.(zIndex := z, zAuto := auto);
            && (BoxLayer(Some(s)) != BoxLayer(Some(t)) ==> FormsStackingContext(Some(s)) || FormsStackingContext(Some(t)))
            && (FormsStackingContext(Some(s)) != FormsStackingContext(Some(t)) ==> s.position in {POS_RELATIVE, POS_ABSOLUTE} && s.zAuto != auto)
  {
  }

  // A group effect: partial opacity, a blend mode other than normal, isolation, or a transform.
  predicate HasEffect(s: Style) {
    (0 <= s.opacity <= 99) || s.mixBlend >= 2 || s.isolation == 2 || s.hasTransform
  }

  // A box that is not positioned (its position unset or static) stays in the flow exactly when it has no such
  // effect; then a float is above blocks and below inline content.
  lemma InFlowIff(s: Style)
    requires s.position < 2 || s.position > 5
    ensures BoxLayer(Some(s)) in {Block, Float, Inline} <==> !HasEffect(s)
    ensures !HasEffect(s) ==> BoxLayer(Some(s)) == if s.isFloat then Float else if s.isInline then Inline else Block
    ensures HasEffect(s) ==> BoxLayer(Some(s)) == if s.zAuto || s.zIndex == 0 then ZeroZ else if s.zIndex < 0 then NegZ else PosZ
  {
  }

  // A positioned box paints by its z-index, auto as 0, if it forms a context, and with the zeros otherwise: a
  // relative or absolute one forms a context exactly when it has an effect or a z-index of its own, a fixed or
  // sticky one always.
  lemma PositionedIff(s: Style)
    requires 2 <= s.position <= 5
    ensures s.position <= 3 ==> (FormsStackingContext(Some(s)) <==> HasEffect(s) || !s.zAuto)
    ensures s.position >= 4 ==> FormsStackingContext(Some(s))
    ensures BoxLayer(Some(s)) == if s.zAuto || s.zIndex == 0 then ZeroZ else if s.zIndex < 0 then NegZ else PosZ
  {
  }

  // Without a style there is no context, and the box is an in-flow block. The layers from back to front.
  lemma LayersFromBackToFront()
    ensures !FormsStackingContext(None) && BoxLayer(None) == Block
    ensures RootBg.Rank() < NegZ.Rank() < Block.Rank() < Float.Rank() < Inline.Rank() < ZeroZ.Rank() < PosZ.Rank()
  {
  }

  // In-flow boxes stay between the negative and the zero layer.
  lemma InFlowLayers(s: Style)
    requires !IsPositioned(s.position) && !FormsStackingContext(Some(s))
    ensures NegZ.Rank() < BoxLayer(Some(s)).Rank() < ZeroZ.Rank()
    ensures s.isFloat <==> BoxLayer(Some(s)) == Float
    ensures BoxLayer(Some(s)) == Inline <==> s.isInline && !s.isFloat
  {
  }

  /* ---------- the order ---------- */

  datatype Item = Item(layer: Layer, zIndex: int, zAuto: bool, docOrder: nat, ref: nat)

  // auto counts as 0.
  function EffZ(it: Item): int {
    if it.zAuto then 0 else it.zIndex
  }

  // cx_item_compare on two items: by layer, then effective z, then document order.
  function CompareItems(a: Item, b: Item): int {
    if a.layer != b.layer then (if a.layer.Rank() < b.layer.Rank() then -1 else 1)
    else if EffZ(a) != EffZ(b) then (if EffZ(a) < EffZ(b) then -1 else 1)
    else if a.docOrder != b.docOrder then (if a.docOrder < b.docOrder then -1 else 1)
    else 0
  }

  // cx_item_compare: a NULL operand sorts first.
  function Compare(a: Option<Item>, b: Option<Item>): int {
    if a.None? || b.None? then
      if a == b then 0 else if a.None? then -1 else 1
    else CompareItems(a.value, b.value)
  }

  // Swapping the operands flips the sign, and the order is transitive: a total preorder, NULL included.
  lemma CompareIsTotalPreorder(a: Option<Item>, b: Option<Item>, c: Option<Item>)
    ensures Compare(a, a) == 0
    ensures Compare(a, b) == -Compare(b, a)
    ensures Compare(a, b) <= 0 && Compare(b, c) <= 0 ==> Compare(a, c) <= 0
    ensures Compare(a, b) <= 0 && Compare(b, c) < 0 ==> Compare(a, c) < 0
    ensures Compare(a, b) < 0 && Compare(b, c) <= 0 ==> Compare(a, c) < 0
  {
    RanksDistinct();
  }

  // A missing item sorts first, and nothing else ties with it.
  lemma NullSortsFirst(a: Item)
    ensures Compare(None, Some(a)) == -1 && Compare(Some(a), None) == 1 && Compare(None, None) == 0
  {
  }

  lemma RanksDistinct()
    ensures forall l: Layer, m: Layer :: l.Rank() == m.Rank() ==> l == m
  {
  }

  lemma ItemOrder(a: Item, b: Item, c: Item)
    ensures CompareItems(a, a) == 0
    ensures CompareItems(a, b) == -CompareItems(b, a)
    ensures CompareItems(a, b) <= 0 && CompareItems(b, c) <= 0 ==> CompareItems(a, c) <= 0
    ensures CompareItems(a, b) == 0 ==> CompareItems(a, c) == CompareItems(b, c)
  {
    CompareIsTotalPreorder(Some(a), Some(b), Some(c));
    CompareIsTotalPreorder(Some(b), Some(a), Some(c));
    CompareIsTotalPreorder(Some(c), Some(a), Some(b));
  }

  // The order the painter used before there were layers: by effective z, then document order.
  function ComparePainter(a: Item, b: Item): int {
    if EffZ(a) != EffZ(b) then (if EffZ(a) < EffZ(b) then -1 else 1)
    else if a.docOrder != b.docOrder then (if a.docOrder < b.docOrder then -1 else 1)
    else 0
  }

  // The item of a box that is positioned or forms a stacking context.
  predicate OutOfFlow(s: Style) {
    IsPositioned(s.position) || FormsStackingContext(Some(s))
  }

  function ItemOf(s: Style, docOrder: nat, ref: nat): Item {
    Item(BoxLayer(Some(s)), s.zIndex, s.zAuto, docOrder, ref)
  }

  // On out-of-flow boxes the layers add nothing to the painter's old order, so no such pixel changes.
  lemma LayersAgreeWithPainter(s: Style, t: Style, i: nat, j: nat, p: nat, q: nat)
    requires OutOfFlow(s) && OutOfFlow(t)
    ensures CompareItems(ItemOf(s, i, p), ItemOf(t, j, q)) == ComparePainter(ItemOf(s, i, p), ItemOf(t, j, q))
  {
    LayerIsSignOfZ(s);
    LayerIsSignOfZ(t);
  }

  // These boxes are the positioned ones and those with a group effect.
  lemma OutOfFlowIff(s: Style)
    ensures OutOfFlow(s) <==> 2 <= s.position <= 5 || HasEffect(s)
  {
  }

  lemma LayerIsSignOfZ(s: Style)
    requires OutOfFlow(s)
    ensures var z := if s.zAuto then 0 else s.zIndex;
            BoxLayer(Some(s)) == if z < 0 then NegZ else if z > 0 then PosZ else ZeroZ
  {
  }

  /* ---------- stable sorting ---------- */

  predicate Sorted(s: seq<Item>) {
    forall i, j :: 0 <= i < j < |s| ==> CompareItems(s[i], s[j]) <= 0
  }

  // The items of s that compare equal to k, in the order they have in s.
  function EqualTo(s: seq<Item>, k: Item): seq<Item> {
    if s == [] then []
    else EqualTo(s[..|s| - 1], k) + if CompareItems(s[|s| - 1], k) == 0 then [s[|s| - 1]] else []
  }

  // t has the same items as s, equal ones in the same relative order.
  ghost predicate StableRearrangement(s: seq<Item>, t: seq<Item>) {
    forall k :: EqualTo(s, k) == EqualTo(t, k)
  }

  // Insertion from the right: past every strictly greater item.
  function InsertRight(s: seq<Item>, key: Item): (r: seq<Item>)
    ensures |r| == |s| + 1
  {
    if s == [] || CompareItems(s[|s| - 1], key) <= 0 then s + [key]
    else InsertRight(s[..|s| - 1], key) + [s[|s| - 1]]
  }

  function InsertionSort(s: seq<Item>): (r: seq<Item>)
    ensures |r| == |s|
  {
    if s == [] then [] else InsertRight(InsertionSort(s[..|s| - 1]), s[|s| - 1])
  }

  lemma EqualToAppend(s: seq<Item>, x: Item, k: Item)
    ensures EqualTo(s + [x], k) == EqualTo(s, k) + if CompareItems(x, k) == 0 then [x] else []
  {
    assert (s + [x])[..|s|] == s;
  }

  lemma {:induction false} EqualToConcat(s: seq<Item>, t: seq<Item>, k: Item)
    ensures EqualTo(s + t, k) == EqualTo(s, k) + EqualTo(t, k)
    decreases |t|
  {
    if t == [] {
      assert s + t == s;
    } else {
      var t', x := t[..|t| - 1], t[|t| - 1];
      EqualToConcat(s, t', k);
      EqualToAppend(s + t', x, k);
      assert s + t == s + t' + [x];
    }
  }

  // Insertion keeps order, and puts the new item after every item it equals.
  lemma {:induction false} InsertRightSorted(s: seq<Item>, key: Item)
    requires Sorted(s)
    ensures Sorted(InsertRight(s, key))
    ensures forall x :: x in InsertRight(s, key) ==> x in s || x == key
    decreases |s|
  {
    hide CompareItems;
    if s == [] {
    } else if CompareItems(s[|s| - 1], key) <= 0 {
      forall i | 0 <= i < |s| ensures CompareItems(s[i], key) <= 0 {
        ItemOrder(s[i], s[|s| - 1], key);
      }
    } else {
      var s', last := s[..|s| - 1], s[|s| - 1];
      InsertRightSorted(s', key);
      ItemOrder(key, last, last);
      var r := InsertRight(s', key);
      forall i | 0 <= i < |r| ensures CompareItems(r[i], last) <= 0 {
        assert r[i] in s' || r[i] == key;
      }
    }
  }

  lemma {:induction false} InsertRightStable(s: seq<Item>, key: Item, k: Item)
    requires Sorted(s)
    ensures EqualTo(InsertRight(s, key), k) == EqualTo(s, k) + if CompareItems(key, k) == 0 then [key] else []
    decreases |s|
  {
    hide CompareItems;
    if s == [] || CompareItems(s[|s| - 1], key) <= 0 {
      EqualToAppend(s, key, k);
    } else {
      var s', last := s[..|s| - 1], s[|s| - 1];
      InsertRightStable(s', key, k);
      EqualToAppend(InsertRight(s', key), last, k);
      // The two cannot both equal k, so their order does not show.
      ItemOrder(key, k, last);
      ItemOrder(last, k, key);
      ItemOrder(k, key, last);
    }
  }

  lemma {:induction false} InsertionSortCorrect(s: seq<Item>)
    ensures Sorted(InsertionSort(s))
    ensures StableRearrangement(s, InsertionSort(s))
    decreases |s|
  {
    hide CompareItems;
    if s != [] {
      var s', x := s[..|s| - 1], s[|s| - 1];
      InsertionSortCorrect(s');
      InsertRightSorted(InsertionSort(s'), x);
      forall k ensures EqualTo(s, k) == EqualTo(InsertionSort(s), k) {
        InsertRightStable(InsertionSort(s'), x, k);
        EqualToAppend(s', x, k);
        assert s == s' + [x];
      }
    }
  }

  lemma {:induction false} EqualToMembers(s: seq<Item>, k: Item, x: Item)
    ensures x in EqualTo(s, k) <==> x in s && CompareItems(x, k) == 0
    decreases |s|
  {
    hide CompareItems;
    if s != [] {
      EqualToMembers(s[..|s| - 1], k, x);
      assert s == s[..|s| - 1] + [s[|s| - 1]];
    }
  }

  // A stable rearrangement is a permutation.
  lemma {:induction false} EqualToCounts(s: seq<Item>, k: Item, x: Item)
    requires CompareItems(x, k) == 0
    ensures multiset(EqualTo(s, k))[x] == multiset(s)[x]
    decreases |s|
  {
    hide CompareItems;
    if s != [] {
      EqualToCounts(s[..|s| - 1], k, x);
      assert s == s[..|s| - 1] + [s[|s| - 1]];
    }
  }

  lemma StableIsPermutation(s: seq<Item>, t: seq<Item>)
    requires StableRearrangement(s, t)
    ensures multiset(s) == multiset(t)
  {
    forall x: Item ensures multiset(s)[x] == multiset(t)[x] {
      ItemOrder(x, x, x);
      EqualToCounts(s, x, x);
      EqualToCounts(t, x, x);
    }
  }

  // There is only one sorted stable rearrangement.
  lemma {:induction false} StableSortUnique(s: seq<Item>, t: seq<Item>)
    requires Sorted(s) && Sorted(t) && StableRearrangement(s, t)
    ensures s == t
    decreases |s|
  {
    hide CompareItems;
    if s == [] {
      StableIsPermutation(s, t);
      assert |multiset(t)| == |t|;
    } else {
      LastIsGreatest(s, t);
      var m, n := |s| - 1, |t| - 1;
      var s', t' := s[..m], t[..n];
      forall k ensures EqualTo(s', k) == EqualTo(t', k) {
        assert EqualTo(s, k) == EqualTo(t, k);
        var tail := if CompareItems(s[m], k) == 0 then [s[m]] else [];
        SuffixCancels(EqualTo(s', k), EqualTo(t', k), tail);
      }
      StableSortUnique(s', t');
      assert s == s' + [s[m]] && t == t' + [t[n]];
    }
  }

  lemma SuffixCancels(a: seq<Item>, b: seq<Item>, tail: seq<Item>)
    requires a + tail == b + tail
    ensures a == b
  {
    assert |a| == |b|;
    assert a == (a + tail)[..|a|] && b == (b + tail)[..|b|];
  }

  lemma LastIsGreatest(s: seq<Item>, t: seq<Item>)
    requires s != [] && Sorted(s) && Sorted(t) && StableRearrangement(s, t)
    ensures t != [] && s[|s| - 1] == t[|t| - 1]
  {
    hide CompareItems;
    var x := s[|s| - 1];
    ItemOrder(x, x, x);
    EqualToMembers(s, x, x);
    EqualToMembers(t, x, x);
    assert EqualTo(s, x) == EqualTo(t, x);
    var y := t[|t| - 1];
    ItemOrder(y, y, y);
    EqualToMembers(t, y, y);
    EqualToMembers(s, y, y);
    assert EqualTo(s, y) == EqualTo(t, y);
    // Each is last among items at most as great as the other, so the two compare equal.
    assert CompareItems(y, x) <= 0 by {
      var i :| 0 <= i < |s| && s[i] == y;
    }
    assert CompareItems(x, y) <= 0 by {
      var i :| 0 <= i < |t| && t[i] == x;
    }
    ItemOrder(x, y, y);
    assert EqualTo(s, x)[|EqualTo(s, x)| - 1] == x;
    assert EqualTo(t, x)[|EqualTo(t, x)| - 1] == y;
  }

  // When equal keys mean equal items, the result does not depend on the order of the input.
  lemma OrderIndependent(s: seq<Item>, t: seq<Item>)
    requires multiset(s) == multiset(t)
    requires forall x, y :: x in s && y in s && CompareItems(x, y) == 0 ==> x == y
    ensures InsertionSort(s) == InsertionSort(t)
  {
    hide CompareItems;
    InsertionSortCorrect(s);
    InsertionSortCorrect(t);
    forall k ensures EqualTo(s, k) == EqualTo(t, k) {
      SameEqualTo(s, t, k);
    }
    assert StableRearrangement(InsertionSort(s), InsertionSort(t));
    StableSortUnique(InsertionSort(s), InsertionSort(t));
  }

  lemma SameEqualTo(s: seq<Item>, t: seq<Item>, k: Item)
    requires multiset(s) == multiset(t)
    requires forall x, y :: x in s && y in s && CompareItems(x, y) == 0 ==> x == y
    ensures EqualTo(s, k) == EqualTo(t, k)
  {
    hide CompareItems, EqualTo;
    var a, b := EqualTo(s, k), EqualTo(t, k);
    SameMembers(s, t, k);
    if a != [] || b != [] {
      var x := if a != [] then a[0] else b[0];
      assert x in a || x in b;
      EqualToMembers(s, k, x);
      AllSame(s, k, x);
      EqualToCounts(s, k, x);
      EqualToCounts(t, k, x);
      CountOfSame(a, x);
      CountOfSame(b, x);
      assert forall i :: 0 <= i < |a| ==> a[i] in a;
      assert forall i :: 0 <= i < |b| ==> b[i] in b;
    }
  }

  lemma SameMembers(s: seq<Item>, t: seq<Item>, k: Item)
    requires multiset(s) == multiset(t)
    ensures forall x :: x in EqualTo(s, k) <==> x in EqualTo(t, k)
    ensures forall x :: x in s <==> x in t
  {
    forall x: Item ensures x in s <==> x in t {
      assert x in s <==> x in multiset(s);
      assert x in t <==> x in multiset(t);
    }
    forall x: Item ensures x in EqualTo(s, k) <==> x in EqualTo(t, k) {
      EqualToMembers(s, k, x);
      EqualToMembers(t, k, x);
    }
  }

  lemma AllSame(s: seq<Item>, k: Item, x: Item)
    requires forall y, z :: y in s && z in s && CompareItems(y, z) == 0 ==> y == z
    requires x in s && CompareItems(x, k) == 0
    ensures forall y :: y in EqualTo(s, k) ==> y == x
  {
    hide CompareItems;
    forall y | y in EqualTo(s, k) ensures y == x {
      EqualToMembers(s, k, y);
      ItemOrder(y, k, x);
      ItemOrder(k, x, x);
      ItemOrder(x, k, k);
    }
  }

  lemma {:induction false} CountOfSame(a: seq<Item>, x: Item)
    requires forall y :: y in a ==> y == x
    ensures multiset(a)[x] == |a|
    decreases |a|
  {
    if a != [] {
      var front := a[..|a| - 1];
      assert forall y :: y in front ==> y in a;
      CountOfSame(front, x);
      assert a[|a| - 1] in a;
      assert a == front + [x];
    }
  }

  /* ---------- cx_sort ---------- */

  method Sort(items: array?<Item>, n: nat)
    requires items != null ==> n <= items.Length
    modifies if items == null then {} else {items}
    ensures items != null ==> items[..] == InsertionSort(old(items[..n])) + old(items[n..])
  {
    hide CompareItems, InsertRight, InsertionSort;
    if items == null || n < 2 {
      if items != null {
        ShortIsSorted(items[..n]);
        assert items[..] == items[..n] + items[n..];
      }
      return;
    }
    ghost var was := items[..];
    ShortIsSorted(was[..1]);
    for i := 1 to n
      invariant items[..i] == InsertionSort(was[..i])
      invariant items[i..] == was[i..]
    {
      InsertOne(items, i);
      assert was[..i + 1][..i] == was[..i];
      SortStep(was[..i + 1]);
    }
    assert items[..] == items[..n] + items[n..];
  }

  // One turn of the outer loop: shifts the greater items up and drops items[i] into the gap.
  method InsertOne(items: array<Item>, i: nat)
    requires i < items.Length
    modifies items
    ensures items[..i + 1] == InsertRight(old(items[..i]), old(items[i]))
    ensures items[i + 1..] == old(items[i + 1..])
  {
    hide CompareItems, InsertRight, PassedFrom;
    ghost var was := items[..];
    var key := items[i];
    var j := i;
    NonePassed(was, key, i);
    while j > 0 && CompareItems(items[j - 1], key) > 0
      invariant 0 <= j <= i
      invariant forall k :: 0 <= k < j ==> items[k] == was[k]
      invariant forall k :: j < k <= i ==> items[k] == was[k - 1]
      invariant forall k :: i < k < items.Length ==> items[k] == was[k]
      invariant PassedFrom(was, key, i, j)
    {
      ShiftStep(was, key, i, j);
      items[j] := items[j - 1];
      j := j - 1;
    }
    items[j] := key;
    DropIntoGap(was, key, i, j);
    assert items[..i + 1] == was[..j] + [key] + was[j..i];
  }

  // Inserting into the first i items passes those from j on.
  ghost predicate PassedFrom(was: seq<Item>, key: Item, i: nat, j: nat)
    requires j <= i <= |was|
  {
    InsertRight(was[..i], key) == InsertRight(was[..j], key) + was[j..i]
  }

  lemma NonePassed(was: seq<Item>, key: Item, i: nat)
    requires i <= |was|
    ensures PassedFrom(was, key, i, i)
  {
  }

  lemma ShiftStep(was: seq<Item>, key: Item, i: nat, j: nat)
    requires 0 < j <= i <= |was| && CompareItems(was[j - 1], key) > 0 && PassedFrom(was, key, i, j)
    ensures PassedFrom(was, key, i, j - 1)
  {
    hide CompareItems, InsertRight;
    InsertStep(was[..j], key);
    assert was[..j][..j - 1] == was[..j - 1];
    assert was[j - 1..i] == [was[j - 1]] + was[j..i];
  }

  lemma DropIntoGap(was: seq<Item>, key: Item, i: nat, j: nat)
    requires j <= i <= |was| && PassedFrom(was, key, i, j) && (j > 0 ==> CompareItems(was[j - 1], key) <= 0)
    ensures InsertRight(was[..i], key) == was[..j] + [key] + was[j..i]
  {
    hide CompareItems, InsertRight;
    InsertStep(was[..j], key);
  }

  lemma InsertStep(s: seq<Item>, key: Item)
    ensures s == [] || CompareItems(s[|s| - 1], key) <= 0 ==> InsertRight(s, key) == s + [key]
    ensures s != [] && CompareItems(s[|s| - 1], key) > 0 ==> InsertRight(s, key) == InsertRight(s[..|s| - 1], key) + [s[|s| - 1]]
  {
  }

  lemma SortStep(s: seq<Item>)
    requires s != []
    ensures InsertionSort(s) == InsertRight(InsertionSort(s[..|s| - 1]), s[|s| - 1])
  {
  }

  lemma ShortIsSorted(s: seq<Item>)
    requires |s| <= 1
    ensures InsertionSort(s) == s
  {
    hide CompareItems;
    if s != [] {
      InsertStep([], s[0]);
      assert s[..0] == [] && s == [s[0]];
    }
  }
}
