/** Vertical margin collapsing (src/block_flow.c; section 8.3.1 of CSS 2.1). */
module BlockFlow {
  import opened Doubles

  // A margin that cannot be computed counts as absent.
  function FiniteOrZero(v: Double): real {
    if v.Finite? then v.value else 0.0
  }

  function Max(x: real, y: real): real { if x >= y then x else y }

  function Min(x: real, y: real): real { if x <= y then x else y }

  // The largest positive margin, or 0.
  function Largest(m: seq<Double>): (p: real)
    ensures p >= 0.0
  {
    if m == [] then 0.0 else Max(Largest(m[..|m| - 1]), FiniteOrZero(m[|m| - 1]))
  }

  // The most negative margin, or 0.
  function Smallest(m: seq<Double>): (n: real)
    ensures n <= 0.0
  {
    if m == [] then 0.0 else Min(Smallest(m[..|m| - 1]), FiniteOrZero(m[|m| - 1]))
  }

  // They bound every margin, and each is 0 or one of the margins.
  lemma {:induction false} ExtremesAreExtreme(m: seq<Double>)
    ensures forall v :: v in m ==> Smallest(m) <= FiniteOrZero(v) <= Largest(m)
    ensures Largest(m) == 0.0 || exists v :: v in m && FiniteOrZero(v) == Largest(m)
    ensures Smallest(m) == 0.0 || exists v :: v in m && FiniteOrZero(v) == Smallest(m)
    decreases |m|
  {
    if m != [] {
      var m', last := m[..|m| - 1], m[|m| - 1];
      ExtremesAreExtreme(m');
      assert m == m' + [last];
      assert last in m;
      if Largest(m') != 0.0 {
        var v :| v in m' && FiniteOrZero(v) == Largest(m');
        assert v in m;
      }
      if Smallest(m') != 0.0 {
        var v :| v in m' && FiniteOrZero(v) == Smallest(m');
        assert v in m;
      }
    }
  }

  // CSS 2.1: the maximum of the positive margins plus the minimum of the negative ones.
  function Collapsed(m: seq<Double>): real {
    Largest(m) + Smallest(m)
  }

  // bf_collapse_n; NULL and the empty array collapse to 0.
  method CollapseN(m: array?<Double>, n: nat) returns (used: real)
    requires m != null ==> n <= m.Length
    ensures m == null ==> used == 0.0
    ensures m != null ==> used == Collapsed(m[..n])
  {
    if m == null || n == 0 {
      return 0.0;
    }
    var pos, neg := 0.0, 0.0;
    for i := 0 to n
      invariant pos == Largest(m[..i]) && neg == Smallest(m[..i])
    {
      var v := FiniteOrZero(m[i]);
      assert m[..i + 1][..i] == m[..i];
      if v > pos {
        pos := v;
      } else if v < neg {
        neg := v;
      }
    }
    return pos + neg;
  }

  // bf_collapse
  method Collapse(a: Double, b: Double) returns (used: real)
    ensures used == Collapsed([a, b])
  {
    var pair := new Double[] [a, b];
    assert pair[..2] == [a, b];
    used := CollapseN(pair, 2);
  }

  /* ---------- the rule is one of sets ---------- */

  // A margin that is NaN or infinite contributes nothing, and one alone is its own result.
  lemma NonFiniteIsNothing(m: seq<Double>, v: Double, r: real)
    requires v == NaN || v == PosInfinity || v == NegInfinity
    ensures Collapsed(m + [v]) == Collapsed(m) && Collapsed([Finite(r)]) == r
  {
    hide Largest, Smallest;
    ExtremesOfAppend(m, v);
    CollapsedOfOne(Finite(r));
  }

  lemma SubsetBounds(m: seq<Double>, k: seq<Double>)
    requires forall v :: v in m ==> v in k
    ensures Largest(m) <= Largest(k) && Smallest(k) <= Smallest(m)
  {
    ExtremesAreExtreme(m);
    ExtremesAreExtreme(k);
  }

  // Order and repetition do not matter.
  lemma CollapsedOfSet(m: seq<Double>, k: seq<Double>)
    requires forall v :: v in m <==> v in k
    ensures Collapsed(m) == Collapsed(k)
  {
    SubsetBounds(m, k);
    SubsetBounds(k, m);
  }

  lemma ExtremesOfAppend(m: seq<Double>, v: Double)
    ensures Largest(m + [v]) == Max(Largest(m), FiniteOrZero(v))
    ensures Smallest(m + [v]) == Min(Smallest(m), FiniteOrZero(v))
  {
    assert (m + [v])[..|m|] == m;
  }

  // The pair of extremes of a concatenation comes from the pairs of its parts: grouping does not matter
  // as long as both extremes are carried along.
  lemma {:induction false} ExtremesOfConcat(m: seq<Double>, k: seq<Double>)
    ensures Largest(m + k) == Max(Largest(m), Largest(k))
    ensures Smallest(m + k) == Min(Smallest(m), Smallest(k))
    decreases |k|
  {
    if k == [] {
      assert m + k == m;
    } else {
      hide Largest, Smallest;
      var k', last := k[..|k| - 1], k[|k| - 1];
      ExtremesOfConcat(m, k');
      ExtremesOfAppend(m + k', last);
      ExtremesOfAppend(k', last);
      assert m + k == m + k' + [last] && k == k' + [last];
    }
  }

  /* ---------- repeated binary collapsing ---------- */

  // Collapsing a list two at a time, from the left.
  function Folded(m: seq<Double>): real {
    if m == [] then 0.0 else Collapsed([Finite(Folded(m[..|m| - 1])), m[|m| - 1]])
  }

  // bf_collapse on two computable margins.
  function Two(x: real, y: real): real {
    Max(0.0, Max(x, y)) + Min(0.0, Min(x, y))
  }

  lemma CollapsedOfTwo(a: Double, b: Double)
    ensures Collapsed([a, b]) == Two(FiniteOrZero(a), FiniteOrZero(b))
  {
    hide Largest, Smallest;
    ExtremesOfNone();
    ExtremesOfAppend([], a);
    ExtremesOfAppend([a], b);
    assert [] + [a] == [a] && [a] + [b] == [a, b];
  }

  lemma ExtremesOfNone()
    ensures Largest([]) == 0.0 == Smallest([])
  {
  }

  lemma FoldedAppend(m: seq<Double>, v: Double)
    ensures Folded(m + [v]) == Two(Folded(m), FiniteOrZero(v))
  {
    assert (m + [v])[..|m|] == m;
    CollapsedOfTwo(Finite(Folded(m)), v);
  }

  ghost predicate NonNegative(m: seq<Double>) {
    forall v :: v in m ==> FiniteOrZero(v) >= 0.0
  }

  ghost predicate NonPositive(m: seq<Double>) {
    forall v :: v in m ==> FiniteOrZero(v) <= 0.0
  }

  // All margins on one side of zero.
  ghost predicate OneSigned(m: seq<Double>) {
    NonNegative(m) || NonPositive(m)
  }

  lemma {:induction false} NonNegativeFolds(m: seq<Double>)
    requires NonNegative(m)
    ensures Folded(m) == Largest(m) && Smallest(m) == 0.0
    decreases |m|
  {
    hide Folded, Largest, Smallest;
    FoldedOfNone();
    ExtremesOfNone();
    if m != [] {
      var m', last := m[..|m| - 1], m[|m| - 1];
      assert m == m' + [last] && last in m;
      NonNegativeFolds(m');
      FoldedAppend(m', last);
      ExtremesOfAppend(m', last);
    }
  }

  lemma {:induction false} NonPositiveFolds(m: seq<Double>)
    requires NonPositive(m)
    ensures Folded(m) == Smallest(m) && Largest(m) == 0.0
    decreases |m|
  {
    hide Folded, Largest, Smallest;
    FoldedOfNone();
    ExtremesOfNone();
    if m != [] {
      var m', last := m[..|m| - 1], m[|m| - 1];
      assert m == m' + [last] && last in m;
      NonPositiveFolds(m');
      FoldedAppend(m', last);
      ExtremesOfAppend(m', last);
    }
  }

  lemma OneSignedFolds(m: seq<Double>)
    requires OneSigned(m)
    ensures Folded(m) == Collapsed(m)
  {
    if NonNegative(m) {
      NonNegativeFolds(m);
    } else {
      NonPositiveFolds(m);
    }
  }

  // A positive and a negative margin, with one of them twice, already tell folding and collapsing apart.
  lemma MixedSignsDisagree(a: Double, b: Double)
    requires FiniteOrZero(a) > 0.0 > FiniteOrZero(b)
    ensures Folded([a, b, a]) != Collapsed([a, b, a])
  {
    FoldOfThree(a, b, a);
  }

  lemma FoldOfThree(a: Double, b: Double, c: Double)
    ensures var x, y, z := FiniteOrZero(a), FiniteOrZero(b), FiniteOrZero(c);
            Folded([a, b, c]) == Two(Two(x, y), z) &&
            Collapsed([a, b, c]) == Max(Max(Max(0.0, x), y), z) + Min(Min(Min(0.0, x), y), z)
  {
    hide Folded, Largest, Smallest, Max, Min, Two, FiniteOrZero;
    FoldedOfNone();
    ExtremesOfNone();
    TwoWithZero(FiniteOrZero(a));
    assert [] + [a] == [a] && [a] + [b] == [a, b] && [a, b] + [c] == [a, b, c];
    FoldedAppend([], a);
    FoldedAppend([a], b);
    FoldedAppend([a, b], c);
    ExtremesOfAppend([], a);
    ExtremesOfAppend([a], b);
    ExtremesOfAppend([a, b], c);
  }

  lemma TwoWithZero(x: real)
    ensures Two(0.0, x) == x
  {
  }

  lemma FoldedOfNone()
    ensures Folded([]) == 0.0
  {
  }

  // The comment in the code says that the n-ary form and repeated binary calls cannot disagree. They agree
  // on every list made of these margins exactly when the margins all have one sign.
  lemma FoldingAgreesIffOneSigned(m: seq<Double>)
    ensures (forall k :: (forall v :: v in k ==> v in m) ==> Folded(k) == Collapsed(k)) <==> OneSigned(m)
  {
    if OneSigned(m) {
      forall k: seq<Double> | forall v :: v in k ==> v in m ensures Folded(k) == Collapsed(k) {
        assert OneSigned(k);
        OneSignedFolds(k);
      }
    } else {
      var b :| b in m && FiniteOrZero(b) < 0.0;
      var a :| a in m && FiniteOrZero(a) > 0.0;
      var k := [a, b, a];
      MixedSignsDisagree(a, b);
      assert forall v :: v in k ==> v in m;
    }
  }

  /* ---------- the orders of one list ---------- */

  function Sign(v: Double): int {
    if FiniteOrZero(v) > 0.0 then 1 else if FiniteOrZero(v) < 0.0 then -1 else 0
  }

  // How many margins have this sign.
  function Count(m: seq<Double>, sign: int): nat {
    if m == [] then 0 else Count(m[..|m| - 1], sign) + if Sign(m[|m| - 1]) == sign then 1 else 0
  }

  ghost predicate SameMargins(m: seq<Double>, k: seq<Double>) {
    multiset(m) == multiset(k)
  }

  lemma CountAppend(m: seq<Double>, v: Double, sign: int)
    ensures Count(m + [v], sign) == Count(m, sign) + if Sign(v) == sign then 1 else 0
  {
    assert (m + [v])[..|m|] == m;
  }

  lemma {:induction false} CountConcat(m: seq<Double>, k: seq<Double>, sign: int)
    ensures Count(m + k, sign) == Count(m, sign) + Count(k, sign)
    decreases |k|
  {
    if k == [] {
      assert m + k == m;
    } else {
      var k', last := k[..|k| - 1], k[|k| - 1];
      assert m + k == (m + k') + [last];
      CountConcat(m, k', sign);
      CountAppend(m + k', last, sign);
    }
  }

  lemma {:induction false} CountPositive(m: seq<Double>, v: Double)
    requires v in m
    ensures Count(m, Sign(v)) >= 1
    decreases |m|
  {
    var last := m[|m| - 1];
    if last != v {
      assert m == m[..|m| - 1] + [last];
      CountPositive(m[..|m| - 1], v);
    }
  }

  lemma {:induction false} CountFound(m: seq<Double>, sign: int)
    requires Count(m, sign) >= 1
    ensures exists v :: v in m && Sign(v) == sign
    decreases |m|
  {
    if Sign(m[|m| - 1]) != sign {
      CountFound(m[..|m| - 1], sign);
      var v :| v in m[..|m| - 1] && Sign(v) == sign;
      assert v in m;
    }
  }

  // Removing one margin, wherever it is.
  lemma TakeOut(m: seq<Double>, v: Double) returns (rest: seq<Double>)
    requires v in m
    ensures SameMargins(m, [v] + rest)
    ensures forall sign :: Count(m, sign) == Count([v] + rest, sign)
  {
    var i :| 0 <= i < |m| && m[i] == v;
    rest := m[..i] + m[i + 1..];
    assert m == m[..i] + ([v] + m[i + 1..]);
    forall sign ensures Count(m, sign) == Count([v] + rest, sign) {
      CountConcat(m[..i], [v] + m[i + 1..], sign);
      CountConcat([v], m[i + 1..], sign);
      CountConcat([v], rest, sign);
      CountConcat(m[..i], m[i + 1..], sign);
    }
  }

  lemma {:induction false} CountOfPermutation(m: seq<Double>, k: seq<Double>, sign: int)
    requires SameMargins(m, k)
    ensures Count(m, sign) == Count(k, sign)
    decreases |m|
  {
    if m == [] {
      assert multiset(k) == multiset{};
      assert k == [];
    } else {
      var v := m[0];
      assert v in multiset(m);
      var rest := TakeOut(k, v);
      assert m == [v] + m[1..];
      assert multiset(m[1..]) == multiset(m) - multiset{v} == multiset([v] + rest) - multiset{v} == multiset(rest);
      CountOfPermutation(m[1..], rest, sign);
      CountConcat([v], m[1..], sign);
      CountConcat([v], rest, sign);
    }
  }

  // With at most one margin of either sign, folding never meets a choice.
  lemma {:induction false} FewFold(m: seq<Double>)
    requires Count(m, 1) <= 1 && Count(m, -1) <= 1
    ensures Folded(m) == Collapsed(m)
    decreases |m|
  {
    hide Folded, Largest, Smallest, Count, Max, Min, Two;
    FoldedOfNone();
    ExtremesOfNone();
    if m != [] {
      var m', last := m[..|m| - 1], m[|m| - 1];
      assert m == m' + [last];
      CountAppend(m', last, 1);
      CountAppend(m', last, -1);
      FewFold(m');
      FoldedAppend(m', last);
      ExtremesOfAppend(m', last);
      if Sign(last) != 0 {
        NoneOfSign(m', Sign(last));
      }
      OneMore(Largest(m'), Smallest(m'), FiniteOrZero(last));
    }
  }

  // A margin that has its sign to itself, added to the pair of extremes.
  lemma OneMore(top: real, bottom: real, v: real)
    requires bottom <= 0.0 <= top && (v > 0.0 ==> top == 0.0) && (v < 0.0 ==> bottom == 0.0)
    ensures Two(top + bottom, v) == Max(top, v) + Min(bottom, v)
  {
  }

  lemma NoneOfSign(m: seq<Double>, sign: int)
    requires Count(m, sign) == 0
    ensures sign == 1 ==> Largest(m) == 0.0
    ensures sign == -1 ==> Smallest(m) == 0.0
  {
    ExtremesAreExtreme(m);
    if sign == 1 && Largest(m) > 0.0 {
      var v :| v in m && FiniteOrZero(v) == Largest(m);
      CountPositive(m, v);
    }
    if sign == -1 && Smallest(m) < 0.0 {
      var v :| v in m && FiniteOrZero(v) == Smallest(m);
      CountPositive(m, v);
    }
  }

  // Margins that are not negative never make a fold smaller.
  lemma {:induction false} FoldGrows(m: seq<Double>, k: seq<Double>)
    requires NonNegative(k)
    ensures Folded(m + k) >= Folded(m)
    decreases |k|
  {
    hide Folded;
    if k == [] {
      assert m + k == m;
    } else {
      var k', last := k[..|k| - 1], k[|k| - 1];
      assert m + k == (m + k') + [last] && last in k;
      FoldGrows(m, k');
      FoldedAppend(m + k', last);
    }
  }

  // The margins that are negative, and the others, in the order of the list.
  lemma {:induction false} Parted(m: seq<Double>) returns (negative: seq<Double>, others: seq<Double>)
    ensures SameMargins(m, negative + others) && NonPositive(negative) && NonNegative(others)
    ensures forall v :: v in others ==> v in m
    ensures Smallest(negative) == Smallest(m)
    decreases |m|
  {
    hide Smallest, Largest;
    negative, others := [], [];
    if m != [] {
      var m', last := m[..|m| - 1], m[|m| - 1];
      assert m == m' + [last];
      negative, others := Parted(m');
      ExtremesOfAppend(m', last);
      if FiniteOrZero(last) < 0.0 {
        ExtremesOfAppend(negative, last);
        negative := negative + [last];
      } else {
        others := others + [last];
      }
    }
  }

  // Two positive margins and a negative one: after all the negative ones, a smaller positive margin first
  // spoils the largest one's share.
  lemma PositivesDisagree(m: seq<Double>) returns (k: seq<Double>)
    requires Count(m, 1) >= 2 && Count(m, -1) >= 1
    ensures SameMargins(m, k) && Folded(k) > Collapsed(k)
  {
    hide Folded, Largest, Smallest, Count;
    var negative, others := Parted(m);
    CountOfPermutation(m, negative + others, 1);
    CountConcat(negative, others, 1);
    NonPositiveCount(negative);
    forall v | v in m && Sign(v) == 1 ensures v in others {
      assert v in multiset(m);
    }
    var top := TopPositive(m, others);
    var rest := TakeOut(others, top);
    CountConcat([top], rest, 1);
    CountOfOne(top, 1);
    CountFound(rest, 1);
    var p :| p in rest && Sign(p) == 1;
    var tail := TakeOut(rest, p);
    k := negative + [p] + [top] + tail;
    assert multiset([top] + rest) == multiset([p] + [top] + tail);
    assert multiset(negative + others) == multiset(k);
    CollapsedOfPermutation(m, k);
    forall v | v in tail ensures v in others {
      assert v in multiset([p] + tail) && v in multiset([top] + rest);
    }
    SmallestOfNegative(m);
    SpoiledFold(negative, p, top, tail);
  }

  lemma SpoiledFold(negative: seq<Double>, p: Double, top: Double, tail: seq<Double>)
    requires NonPositive(negative) && Smallest(negative) < 0.0 && Sign(p) == 1 && Sign(top) == 1 && NonNegative(tail)
    ensures Folded(negative + [p] + [top] + tail) > FiniteOrZero(top) + Smallest(negative)
  {
    hide Folded, Largest, Smallest;
    NonPositiveFolds(negative);
    FoldedAppend(negative, p);
    FoldedAppend(negative + [p], top);
    FoldGrows(negative + [p] + [top], tail);
  }

  lemma CollapsedOfPermutation(m: seq<Double>, k: seq<Double>)
    requires SameMargins(m, k)
    ensures Collapsed(m) == Collapsed(k) && Smallest(m) == Smallest(k)
  {
    hide Largest, Smallest;
    assert forall v :: v in m <==> v in multiset(m);
    assert forall v :: v in k <==> v in multiset(k);
    SubsetBounds(m, k);
    SubsetBounds(k, m);
  }

  lemma CountOfOne(v: Double, sign: int)
    ensures Count([v], sign) == if Sign(v) == sign then 1 else 0
  {
    assert [v][..0] == [];
  }

  lemma {:induction false} NonPositiveCount(m: seq<Double>)
    requires NonPositive(m)
    ensures Count(m, 1) == 0
  {
    hide Count;
    if Count(m, 1) >= 1 {
      CountFound(m, 1);
    }
  }

  lemma SmallestOfNegative(m: seq<Double>)
    requires Count(m, -1) >= 1
    ensures Smallest(m) < 0.0
  {
    CountFound(m, -1);
    ExtremesAreExtreme(m);
  }

  lemma TopPositive(m: seq<Double>, others: seq<Double>) returns (top: Double)
    requires Count(others, 1) >= 1 && Count(m, 1) >= 1 && forall v :: v in others ==> v in m
    requires forall v :: v in m && Sign(v) == 1 ==> v in others
    ensures top in others && FiniteOrZero(top) == Largest(m) > 0.0
  {
    CountFound(m, 1);
    ExtremesAreExtreme(m);
    top :| top in m && FiniteOrZero(top) == Largest(m);
  }

  /* ---------- changing all signs ---------- */

  function Mirror(v: Double): Double {
    if v.Finite? then Finite(-v.value) else v
  }

  function Mirrored(m: seq<Double>): (k: seq<Double>)
    ensures |k| == |m|
  {
    seq(|m|, i requires 0 <= i < |m| => Mirror(m[i]))
  }

  lemma MirrorTwice(m: seq<Double>)
    ensures Mirrored(Mirrored(m)) == m
  {
  }

  lemma MirroredAppend(m: seq<Double>, v: Double)
    ensures Mirrored(m + [v]) == Mirrored(m) + [Mirror(v)]
  {
  }

  lemma {:induction false} MirroredFolds(m: seq<Double>)
    ensures Folded(Mirrored(m)) == -Folded(m)
    ensures Largest(Mirrored(m)) == -Smallest(m) && Smallest(Mirrored(m)) == -Largest(m)
    decreases |m|
  {
    hide Folded, Largest, Smallest, Mirrored;
    FoldedOfNone();
    ExtremesOfNone();
    if m != [] {
      var m', last := m[..|m| - 1], m[|m| - 1];
      assert m == m' + [last];
      MirroredFolds(m');
      MirroredAppend(m', last);
      FoldedAppend(m', last);
      FoldedAppend(Mirrored(m'), Mirror(last));
      ExtremesOfAppend(m', last);
      ExtremesOfAppend(Mirrored(m'), Mirror(last));
    }
  }

  lemma {:induction false} MirroredCount(m: seq<Double>, sign: int)
    ensures Count(Mirrored(m), sign) == Count(m, -sign)
    decreases |m|
  {
    hide Count, Mirrored;
    CountOfNone();
    if m != [] {
      var m', last := m[..|m| - 1], m[|m| - 1];
      assert m == m' + [last];
      MirroredCount(m', sign);
      MirroredAppend(m', last);
      CountAppend(m', last, -sign);
      CountAppend(Mirrored(m'), Mirror(last), sign);
    }
  }

  lemma CountOfNone()
    ensures forall sign :: Count([], sign) == 0
  {
  }

  lemma {:induction false} MirroredOccurrences(m: seq<Double>, v: Double)
    ensures multiset(Mirrored(m))[v] == multiset(m)[Mirror(v)]
    decreases |m|
  {
    if m == [] {
      assert Mirrored(m) == [];
    } else {
      var m', last := m[..|m| - 1], m[|m| - 1];
      assert m == m' + [last];
      MirroredAppend(m', last);
      MirroredOccurrences(m', v);
    }
  }

  lemma MirroredPermutation(m: seq<Double>, k: seq<Double>)
    requires SameMargins(m, k)
    ensures SameMargins(Mirrored(m), Mirrored(k))
  {
    forall v ensures multiset(Mirrored(m))[v] == multiset(Mirrored(k))[v] {
      MirroredOccurrences(m, v);
      MirroredOccurrences(k, v);
    }
  }

  lemma NegativesDisagree(m: seq<Double>) returns (k: seq<Double>)
    requires Count(m, -1) >= 2 && Count(m, 1) >= 1
    ensures SameMargins(m, k) && Folded(k) < Collapsed(k)
  {
    hide Folded, Largest, Smallest, Count;
    MirroredFolds(m);
    MirroredCount(m, 1);
    MirroredCount(m, -1);
    var mirror := PositivesDisagree(Mirrored(m));
    k := Mirrored(mirror);
    MirroredPermutation(Mirrored(m), mirror);
    MirrorTwice(m);
    MirroredFolds(mirror);
  }

  // All orders of one list agree with the n-ary form exactly when its margins have one sign, or when there
  // is only one of either sign.
  lemma OrdersAgreeIff(m: seq<Double>)
    ensures (forall k :: SameMargins(m, k) ==> Folded(k) == Collapsed(k)) <==>
            OneSigned(m) || (Count(m, 1) == 1 && Count(m, -1) == 1)
  {
    hide Folded, Largest, Smallest, Count, Collapsed, SameMargins;
    if OneSigned(m) {
      forall k | SameMargins(m, k) ensures Folded(k) == Collapsed(k) {
        SameSigns(m, k);
        OneSignedFolds(k);
      }
    } else if Count(m, 1) == 1 && Count(m, -1) == 1 {
      forall k | SameMargins(m, k) ensures Folded(k) == Collapsed(k) {
        CountOfPermutation(m, k, 1);
        CountOfPermutation(m, k, -1);
        FewFold(k);
      }
    } else {
      var b :| b in m && FiniteOrZero(b) < 0.0;
      CountPositive(m, b);
      var a :| a in m && FiniteOrZero(a) > 0.0;
      CountPositive(m, a);
      if Count(m, 1) >= 2 {
        var k := PositivesDisagree(m);
      } else {
        var k := NegativesDisagree(m);
      }
    }
  }

  lemma SameSigns(m: seq<Double>, k: seq<Double>)
    requires SameMargins(m, k) && OneSigned(m)
    ensures OneSigned(k)
  {
    assert forall v :: v in k ==> v in multiset(k) && v in multiset(m);
    assert forall v :: v in k ==> v in m;
  }

  /* ---------- every grouping ---------- */

  // Margins collapsed two at a time, in any grouping.
  datatype Grouping = One(margin: Double) | Pair(left: Grouping, right: Grouping) {
    function Margins(): (m: seq<Double>)
      ensures m != []
    {
      match this
      case One(v) => [v]
      case Pair(l, r) => l.Margins() + r.Margins()
    }

    function Value(): real {
      match this
      case One(v) => FiniteOrZero(v)
      case Pair(l, r) => Collapsed([Finite(l.Value()), Finite(r.Value())])
    }
  }

  // One sign, or at most one margin of either sign.
  ghost predicate Tame(m: seq<Double>) {
    OneSigned(m) || (Count(m, 1) <= 1 && Count(m, -1) <= 1)
  }

  lemma TameParts(m: seq<Double>, k: seq<Double>)
    requires Tame(m + k)
    ensures Tame(m) && Tame(k)
  {
    CountConcat(m, k, 1);
    CountConcat(m, k, -1);
    assert forall v :: v in m || v in k ==> v in m + k;
  }

  lemma {:induction false} TameGroupsAgree(t: Grouping)
    requires Tame(t.Margins())
    ensures t.Value() == Collapsed(t.Margins())
    decreases t
  {
    hide Tame, Collapsed, Two;
    match t
    case One(v) =>
      CollapsedOfOne(v);
    case Pair(l, r) =>
      TameParts(l.Margins(), r.Margins());
      TameGroupsAgree(l);
      TameGroupsAgree(r);
      CollapsedOfTwo(Finite(l.Value()), Finite(r.Value()));
      TamePairAgrees(l.Margins(), r.Margins());
  }

  lemma CollapsedOfOne(v: Double)
    ensures Collapsed([v]) == FiniteOrZero(v)
  {
    hide Largest, Smallest;
    ExtremesOfNone();
    ExtremesOfAppend([], v);
    assert [] + [v] == [v];
  }

  lemma TamePairAgrees(m: seq<Double>, k: seq<Double>)
    requires Tame(m + k)
    ensures Two(Collapsed(m), Collapsed(k)) == Collapsed(m + k)
  {
    hide Largest, Smallest, Tame, Two, Max, Min;
    ExtremesOfConcat(m, k);
    TameExtremes(m, k);
  }

  // Two lists that are tame together leave no choice.
  lemma TameExtremes(m: seq<Double>, k: seq<Double>)
    requires Tame(m + k)
    ensures Two(Largest(m) + Smallest(m), Largest(k) + Smallest(k)) ==
            Max(Largest(m), Largest(k)) + Min(Smallest(m), Smallest(k))
  {
    hide Count, Largest, Smallest, Max, Min, Two;
    if OneSigned(m + k) {
      OneSignedExtremes(m, k);
    } else {
      SignOnOneSide(m, k, 1);
      SignOnOneSide(m, k, -1);
    }
    TwoOfPairs(Largest(m), Smallest(m), Largest(k), Smallest(k));
  }

  lemma OneSignedExtremes(m: seq<Double>, k: seq<Double>)
    requires OneSigned(m + k)
    ensures (Smallest(m) == 0.0 && Smallest(k) == 0.0) || (Largest(m) == 0.0 && Largest(k) == 0.0)
  {
    hide Largest, Smallest;
    assert forall v :: v in m || v in k ==> v in m + k;
    if NonNegative(m + k) {
      NonNegativeFolds(m);
      NonNegativeFolds(k);
    } else {
      NonPositiveFolds(m);
      NonPositiveFolds(k);
    }
  }

  lemma TwoOfPairs(l1: real, s1: real, l2: real, s2: real)
    requires s1 <= 0.0 <= l1 && s2 <= 0.0 <= l2
    requires (s1 == 0.0 && s2 == 0.0) || (l1 == 0.0 && l2 == 0.0) || ((l1 == 0.0 || l2 == 0.0) && (s1 == 0.0 || s2 == 0.0))
    ensures Two(l1 + s1, l2 + s2) == Max(l1, l2) + Min(s1, s2)
  {
  }

  lemma SignOnOneSide(m: seq<Double>, k: seq<Double>, sign: int)
    requires Count(m + k, sign) <= 1
    ensures sign == 1 ==> Largest(m) == 0.0 || Largest(k) == 0.0
    ensures sign == -1 ==> Smallest(m) == 0.0 || Smallest(k) == 0.0
  {
    CountConcat(m, k, sign);
    if Count(m, sign) == 0 {
      NoneOfSign(m, sign);
    } else {
      NoneOfSign(k, sign);
    }
  }

  // Grouping from the left is folding.
  lemma {:induction false} LeftGrouping(m: seq<Double>) returns (t: Grouping)
    requires m != []
    ensures t.Margins() == m && t.Value() == Folded(m)
    decreases |m|
  {
    hide Folded, Collapsed;
    var m', last := m[..|m| - 1], m[|m| - 1];
    assert m == m' + [last];
    FoldedAppend(m', last);
    if m' == [] {
      FoldedOfNone();
      TwoWithZero(FiniteOrZero(last));
      t := One(last);
    } else {
      var l := LeftGrouping(m');
      t := Pair(l, One(last));
      CollapsedOfTwo(Finite(l.Value()), Finite(FiniteOrZero(last)));
    }
  }

  // Repeated binary calls agree with the n-ary form in every order and every grouping of one list exactly
  // when its margins have one sign, or when there is only one of either sign.
  lemma GroupingsAgreeIff(m: seq<Double>)
    requires m != []
    ensures (forall t: Grouping :: SameMargins(m, t.Margins()) ==> t.Value() == Collapsed(m)) <==>
            OneSigned(m) || (Count(m, 1) == 1 && Count(m, -1) == 1)
  {
    hide Folded, Largest, Smallest, Count, Collapsed, SameMargins, OneSigned;
    if OneSigned(m) || (Count(m, 1) == 1 && Count(m, -1) == 1) {
      forall t: Grouping | SameMargins(m, t.Margins()) ensures t.Value() == Collapsed(m) {
        CollapsedOfPermutation(m, t.Margins());
        if OneSigned(m) {
          SameSigns(m, t.Margins());
        } else {
          CountOfPermutation(m, t.Margins(), 1);
          CountOfPermutation(m, t.Margins(), -1);
        }
        TameGroupsAgree(t);
      }
    } else {
      OrdersAgreeIff(m);
      var k :| SameMargins(m, k) && Folded(k) != Collapsed(k);
      SameLength(m, k);
      CollapsedOfPermutation(m, k);
      var t := LeftGrouping(k);
    }
  }

  lemma SameLength(m: seq<Double>, k: seq<Double>)
    requires SameMargins(m, k)
    ensures |m| == |k|
  {
    assert |multiset(m)| == |multiset(k)|;
  }

  // The concrete case: 5, -3 and 4 collapse to 2, but two at a time to 4, or to 5 from the right.
  lemma FiveMinusThreeFour()
    ensures var a, b, c := Finite(5.0), Finite(-3.0), Finite(4.0);
            Collapsed([a, b, c]) == 2.0 &&
            Collapsed([Finite(Collapsed([a, b])), c]) == 4.0 &&
            Collapsed([a, Finite(Collapsed([b, c]))]) == 5.0
  {
    var a, b, c := Finite(5.0), Finite(-3.0), Finite(4.0);
    hide Folded, Largest, Smallest, Collapsed;
    FoldOfThree(a, b, c);
    CollapsedOfTwo(a, b);
    CollapsedOfTwo(Finite(2.0), c);
    CollapsedOfTwo(b, c);
    CollapsedOfTwo(a, Finite(1.0));
  }
}
