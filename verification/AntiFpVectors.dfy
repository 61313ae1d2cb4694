/** Published values of the generator and of the hash that src/anti_fp.c implements, which pin its constants,
  * its shifts and the order of its steps.
  */
module AntiFpVectors {
  import opened AntiFp
  import opened Words
  import opened Wrappers

  /* ---------- computing ---------- */

  // One bit of an exclusive or, of weight p, for numbers below 2p; and what is left of a number without it.
  function Differ(p: nat, x: nat, y: nat): nat {
    if (x >= p) == (y >= p) then 0 else p
  }

  function Rest(p: nat, x: nat): nat {
    if x >= p then x - p else x
  }

  // Exclusive or on four bits, by comparisons alone.
  function Xor4(x: nat, y: nat): nat {
    Differ(8, x, y) + Differ(4, Rest(8, x), Rest(8, y)) + Differ(2, Rest(4, Rest(8, x)), Rest(4, Rest(8, y))) +
    Differ(1, Rest(2, Rest(4, Rest(8, x))), Rest(2, Rest(4, Rest(8, y))))
  }

  lemma XorOneBit(a: nat, b: nat, x: nat, y: nat)
    requires x < 2 && y < 2
    ensures Xor(2 * a + x, 2 * b + y) == 2 * Xor(a, b) + Differ(1, x, y)
  {
    hide Xor;
    XorBits(2 * a + x, 2 * b + y);
  }

  // The bit of weight p as a digit.
  function Digit(p: nat, x: nat): nat {
    if x >= p then 1 else 0
  }

  lemma FourDigits(x: nat)
    requires x < 16
    ensures x == 8 * Digit(8, x) + 4 * Digit(4, Rest(8, x)) + 2 * Digit(2, Rest(4, Rest(8, x))) + Rest(2, Rest(4, Rest(8, x)))
    ensures Rest(2, Rest(4, Rest(8, x))) < 2
  {
  }

  lemma DifferScales(p: nat, x: nat, y: nat)
    ensures Differ(p, x, y) == p * Differ(1, Digit(p, x), Digit(p, y))
  {
  }

  lemma XorFourBits(a: nat, b: nat, x: nat, y: nat)
    requires x < 16 && y < 16
    ensures Xor(16 * a + x, 16 * b + y) == 16 * Xor(a, b) + Xor4(x, y)
  {
    hide Xor, Differ, Rest;
    FourDigits(x);
    FourDigits(y);
    DifferScales(8, x, y);
    DifferScales(4, Rest(8, x), Rest(8, y));
    DifferScales(2, Rest(4, Rest(8, x)), Rest(4, Rest(8, y)));
    var x3, y3 := Digit(8, x), Digit(8, y);
    var x2, y2 := Digit(4, Rest(8, x)), Digit(4, Rest(8, y));
    var x1, y1 := Digit(2, Rest(4, Rest(8, x))), Digit(2, Rest(4, Rest(8, y)));
    XorOneBit(a, b, x3, y3);
    XorOneBit(2 * a + x3, 2 * b + y3, x2, y2);
    XorOneBit(4 * a + 2 * x3 + x2, 4 * b + 2 * y3 + y2, x1, y1);
    XorOneBit(8 * a + 4 * x3 + 2 * x2 + x1, 8 * b + 4 * y3 + 2 * y2 + y1, Rest(2, Rest(4, Rest(8, x))), Rest(2, Rest(4, Rest(8, y))));
  }

  ghost predicate IsXor(a: nat, b: nat, c: nat) {
    Xor(a, b) == c
  }

  lemma XorOfZeros()
    ensures IsXor(0, 0, 0)
  {
  }

  // Four hexadecimal digits at a time.
  lemma XorHex4(a: nat, b: nat, c: nat, x3: nat, x2: nat, x1: nat, x0: nat, y3: nat, y2: nat, y1: nat, y0: nat)
    requires x3 < 16 && x2 < 16 && x1 < 16 && x0 < 16 && y3 < 16 && y2 < 16 && y1 < 16 && y0 < 16
    requires IsXor(a, b, c)
    ensures IsXor(65536 * a + 4096 * x3 + 256 * x2 + 16 * x1 + x0, 65536 * b + 4096 * y3 + 256 * y2 + 16 * y1 + y0,
                  65536 * c + 4096 * Xor4(x3, y3) + 256 * Xor4(x2, y2) + 16 * Xor4(x1, y1) + Xor4(x0, y0))
  {
    hide Xor, Xor4;
    var u, v := 16 * a + x3, 16 * b + y3;
    XorFourBits(a, b, x3, y3);
    XorFourBits(u, v, x2, y2);
    XorFourBits(16 * u + x2, 16 * v + y2, x1, y1);
    XorFourBits(16 * (16 * u + x2) + x1, 16 * (16 * v + y2) + y1, x0, y0);
  }

  // A shift is a division.
  lemma {:induction false} ShrDivides(a: nat, k: nat, q: nat)
    requires q * PowerOfTwo(k) <= a < (q + 1) * PowerOfTwo(k)
    ensures Shr(a, k) == q
    decreases k
  {
    if k > 0 {
      var p := PowerOfTwo(k - 1);
      HalvesBetween(a, q, p);
      ShrDivides(a / 2, k - 1, q);
    }
  }

  lemma HalvesBetween(a: nat, q: nat, p: nat)
    requires q * (2 * p) <= a < (q + 1) * (2 * p)
    ensures q * p <= a / 2 < (q + 1) * p
  {
    assert q * (2 * p) == 2 * (q * p) && (q + 1) * (2 * p) == 2 * ((q + 1) * p);
  }

  lemma XorShiftIs(z: Word, k: nat, q: nat, c: Word)
    requires q * PowerOfTwo(k) <= z < (q + 1) * PowerOfTwo(k) && IsXor(z, q, c)
    ensures XorShift(z, k) == c
  {
    ShrDivides(z, k, q);
  }

  lemma Powers()
    ensures PowerOfTwo(27) == 134217728 && PowerOfTwo(30) == 1073741824 && PowerOfTwo(31) == 2147483648
  {
    assert PowerOfTwo(9) == 512;
    PowerOfTwoAdds(9, 9);
    PowerOfTwoAdds(18, 9);
    assert PowerOfTwo(30) == 8 * PowerOfTwo(27);
    assert PowerOfTwo(31) == 2 * PowerOfTwo(30);
  }

  /* ---------- the generator ---------- */

  lemma ZeroFirstHigh()
    ensures IsXor(0x9e3779b9, 0x2, 0x9e3779bb)
  {
    hide IsXor;
    XorOfZeros();
    XorHex4(0, 0, 0, 9, 14, 3, 7, 0, 0, 0, 0);
    XorHex4(0x9e37, 0, 0x9e37, 7, 9, 11, 9, 0, 0, 0, 2);
  }

  lemma ZeroFirst()
    ensures IsXor(0x9e3779b97f4a7c15, 0x278dde6e5, 0x9e3779bb07979af0)
  {
    hide IsXor;
    ZeroFirstHigh();
    XorHex4(0x9e3779b9, 0x2, 0x9e3779bb, 7, 15, 4, 10, 7, 8, 13, 13);
    XorHex4(0x9e3779b97f4a, 0x278dd, 0x9e3779bb0797, 7, 12, 1, 5, 14, 6, 14, 5);
  }

  lemma ZeroSecondHigh()
    ensures IsXor(0x6f68261b, 0xd, 0x6f682616)
  {
    hide IsXor;
    XorOfZeros();
    XorHex4(0, 0, 0, 6, 15, 6, 8, 0, 0, 0, 0);
    XorHex4(0x6f68, 0, 0x6f68, 2, 6, 1, 11, 0, 0, 0, 13);
  }

  lemma ZeroSecond()
    ensures IsXor(0x6f68261b57e7a770, 0xded04c36a, 0x6f682616bae3641a)
  {
    hide IsXor;
    ZeroSecondHigh();
    XorHex4(0x6f68261b, 0xd, 0x6f682616, 5, 7, 14, 7, 14, 13, 0, 4);
    XorHex4(0x6f68261b57e7, 0xded04, 0x6f682616bae3, 10, 7, 7, 0, 12, 3, 6, 10);
  }

  lemma ZeroThirdHigh()
    ensures IsXor(0xe220a838, 0x1, 0xe220a839)
  {
    hide IsXor;
    XorOfZeros();
    XorHex4(0, 0, 0, 14, 2, 2, 0, 0, 0, 0, 0);
    XorHex4(0xe220, 0, 0xe220, 10, 8, 3, 8, 0, 0, 0, 1);
  }

  lemma ZeroThird()
    ensures IsXor(0xe220a838bf5c9dde, 0x1c4415071, 0xe220a8397b1dcdaf)
  {
    hide IsXor;
    ZeroThirdHigh();
    XorHex4(0xe220a838, 0x1, 0xe220a839, 11, 15, 5, 12, 12, 4, 4, 1);
    XorHex4(0xe220a838bf5c, 0x1c441, 0xe220a8397b1d, 9, 13, 13, 14, 5, 0, 7, 1);
  }

  lemma ZeroMix()
    ensures Mix(0x9e3779b97f4a7c15) == 0xe220a8397b1dcdaf
  {
    hide IsXor, XorShift;
    Powers();
    ZeroFirst();
    ZeroSecond();
    ZeroThird();
    XorShiftIs(0x9e3779b97f4a7c15, 30, 0x278dde6e5, 0x9e3779bb07979af0);
    assert Times(0x9e3779bb07979af0, MIX_A) == 0x6f68261b57e7a770;
    XorShiftIs(0x6f68261b57e7a770, 27, 0xded04c36a, 0x6f682616bae3641a);
    assert Times(0x6f682616bae3641a, MIX_B) == 0xe220a838bf5c9dde;
    XorShiftIs(0xe220a838bf5c9dde, 31, 0x1c4415071, 0xe220a8397b1dcdaf);
  }

  // The first value of splitmix64 from the seed 0.
  lemma FirstOfSeedZero()
    ensures Output(0, 0) == 0xe220a8397b1dcdaf
  {
    ZeroMix();
    hide Mix;
    assert StateAt(0, 1) == Plus(StateAt(0, 0), GAMMA) == 0x9e3779b97f4a7c15;
  }

  /* ---------- the hash ---------- */

  lemma BasisAndAHigh()
    ensures IsXor(0xcbf29ce4, 0, 0xcbf29ce4)
  {
    hide IsXor;
    XorOfZeros();
    XorHex4(0, 0, 0, 12, 11, 15, 2, 0, 0, 0, 0);
    XorHex4(0xcbf2, 0, 0xcbf2, 9, 12, 14, 4, 0, 0, 0, 0);
  }

  lemma BasisAndA()
    ensures IsXor(0xcbf29ce484222325, 0x61, 0xcbf29ce484222344)
  {
    hide IsXor;
    BasisAndAHigh();
    XorHex4(0xcbf29ce4, 0, 0xcbf29ce4, 8, 4, 2, 2, 0, 0, 0, 0);
    XorHex4(0xcbf29ce48422, 0, 0xcbf29ce48422, 2, 3, 2, 5, 0, 0, 6, 1);
  }

  // The hash starts at the offset basis, and a character goes in by exclusive or before the multiplication.
  lemma HashOfNothing()
    ensures DomainHash(None) == DomainHash(Some([])) == 0xcbf29ce484222325
  {
  }

  lemma HashAppends(s: CString, b: Octet)
    requires b != 0
    ensures DomainHash(Some(s + [b])) == Xor(DomainHash(Some(s)), b) * 0x100000001b3 % 0x1_0000_0000_0000_0000
  {
    FnvConcat(FNV_BASIS, s, [b]);
    assert [b][1..] == [];
    hide Xor;
    assert FnvFrom(DomainHash(Some(s)), [b]) == FnvFrom(FnvStep(DomainHash(Some(s)), b), []);
  }

  // FNV-1a of "a".
  lemma HashOfA()
    ensures DomainHash(Some([97])) == 0xaf63dc4c8601ec8c
  {
    hide IsXor, DomainHash;
    BasisAndA();
    HashOfNothing();
    HashStepIs([], 97, 0xcbf29ce484222344);
    assert [] + [97] == [97];
  }

  lemma HashStepIs(s: CString, b: Octet, c: Word)
    requires b != 0 && IsXor(DomainHash(Some(s)), b, c)
    ensures DomainHash(Some(s + [b])) == c * 0x100000001b3 % 0x1_0000_0000_0000_0000
  {
    HashAppends(s, b);
  }

  lemma LetterAFirstHigh()
    ensures IsXor(0x4d9b5606, 0x1, 0x4d9b5607)
  {
    hide IsXor;
    XorOfZeros();
    XorHex4(0, 0, 0, 4, 13, 9, 11, 0, 0, 0, 0);
    XorHex4(0x4d9b, 0, 0x4d9b, 5, 6, 0, 6, 0, 0, 0, 1);
  }

  lemma LetterAFirst()
    ensures IsXor(0x4d9b5606054c68a1, 0x1366d5818, 0x4d9b5607332130b9)
  {
    hide IsXor;
    LetterAFirstHigh();
    XorHex4(0x4d9b5606, 0x1, 0x4d9b5607, 0, 5, 4, 12, 3, 6, 6, 13);
    XorHex4(0x4d9b5606054c, 0x1366d, 0x4d9b56073321, 6, 8, 10, 1, 5, 8, 1, 8);
  }

  lemma LetterASecondHigh()
    ensures IsXor(0x3173d499, 0x6, 0x3173d49f)
  {
    hide IsXor;
    XorOfZeros();
    XorHex4(0, 0, 0, 3, 1, 7, 3, 0, 0, 0, 0);
    XorHex4(0x3173, 0, 0x3173, 13, 4, 9, 9, 0, 0, 0, 6);
  }

  lemma LetterASecond()
    ensures IsXor(0x3173d4994455b2b1, 0x62e7a9328, 0x3173d49f6a2f2199)
  {
    hide IsXor;
    LetterASecondHigh();
    XorHex4(0x3173d499, 0x6, 0x3173d49f, 4, 4, 5, 5, 2, 14, 7, 10);
    XorHex4(0x3173d4994455, 0x62e7a, 0x3173d49f6a2f, 11, 2, 11, 1, 9, 3, 2, 8);
  }

  lemma LetterAThirdHigh()
    ensures IsXor(0x5f29c2aa, 0, 0x5f29c2aa)
  {
    hide IsXor;
    XorOfZeros();
    XorHex4(0, 0, 0, 5, 15, 2, 9, 0, 0, 0, 0);
    XorHex4(0x5f29, 0, 0x5f29, 12, 2, 10, 10, 0, 0, 0, 0);
  }

  lemma LetterAThird()
    ensures IsXor(0x5f29c2aa63c80073, 0xbe538554, 0x5f29c2aadd9b8527)
  {
    hide IsXor;
    LetterAThirdHigh();
    XorHex4(0x5f29c2aa, 0, 0x5f29c2aa, 6, 3, 12, 8, 11, 14, 5, 3);
    XorHex4(0x5f29c2aa63c8, 0xbe53, 0x5f29c2aadd9b, 0, 0, 7, 3, 8, 5, 5, 4);
  }

  lemma LetterAMix()
    ensures Mix(0x4d9b5606054c68a1) == 0x5f29c2aadd9b8527
  {
    hide IsXor, XorShift;
    Powers();
    LetterAFirst();
    LetterASecond();
    LetterAThird();
    XorShiftIs(0x4d9b5606054c68a1, 30, 0x1366d5818, 0x4d9b5607332130b9);
    assert Times(0x4d9b5607332130b9, MIX_A) == 0x3173d4994455b2b1;
    XorShiftIs(0x3173d4994455b2b1, 27, 0x62e7a9328, 0x3173d49f6a2f2199);
    assert Times(0x3173d49f6a2f2199, MIX_B) == 0x5f29c2aa63c80073;
    XorShiftIs(0x5f29c2aa63c80073, 31, 0xbe538554, 0x5f29c2aadd9b8527);
  }

  // And the key of "a" under the session key 0.
  lemma KeyOfA()
    ensures OriginKeySpec(0, Some([97])) == 0x5f29c2aadd9b8527
  {
    HashOfA();
    LetterAMix();
    XorWithZero(DomainHash(Some([97])));
    XorCommutative(0, DomainHash(Some([97])));
    hide Mix, DomainHash, Xor;
    var key := KeyedHash(0, Some([97]));
    assert StateAt(key, 1) == Plus(StateAt(key, 0), GAMMA);
  }

  /* ---------- how many keys flip a byte ---------- */

  // The key whose i-th output is y.
  function KeyAt(y: Word, i: nat): Word {
    Wrap(Unmix(y) - (i + 1) * GAMMA)
  }

  lemma OutputOfKeyAt(y: Word, i: nat)
    ensures Output(KeyAt(y, i), i) == y
  {
    hide Mix, Unmix, Wrap;
    var g := (i + 1) * GAMMA;
    StateAtClosedForm(KeyAt(y, i), i + 1);
    WrapCongruent(Unmix(y) - g, g, 0);
    WrapUnique(Unmix(y), Unmix(y), 0);
    MixIsBijective(y);
  }

  function Range(f: nat -> nat, n: nat): set<nat> {
    if n == 0 then {} else Range(f, n - 1) + {f(n - 1)}
  }

  lemma {:induction false} RangeHas(f: nat -> nat, n: nat)
    ensures forall x :: x in Range(f, n) <==> exists k: nat :: k < n && f(k) == x
    decreases n
  {
    if n > 0 {
      RangeHas(f, n - 1);
    }
  }

  lemma {:induction false} RangeOfInjective(f: nat -> nat, n: nat)
    requires forall j: nat, k: nat :: j < k < n ==> f(j) != f(k)
    ensures |Range(f, n)| == n
    decreases n
  {
    if n > 0 {
      RangeOfInjective(f, n - 1);
      RangeHas(f, n - 1);
    }
  }

  // The keys whose noise flips the byte at index i.
  function FlippingKeys(i: nat): set<nat> {
    set key: nat | key < MODULUS && Flips(key, i)
  }

  function MultipleKey(i: nat): nat -> nat {
    m => KeyAt(Wrap(16 * m), i)
  }

  const SIXTEENTH: nat := 0x1000_0000_0000_0000

  lemma MultipleKeyFlips(i: nat, m: nat)
    requires m < SIXTEENTH
    ensures MultipleKey(i)(m) < MODULUS && Flips(MultipleKey(i)(m), i) && Output(MultipleKey(i)(m), i) == 16 * m
  {
    hide Output, KeyAt;
    WrapUnique(16 * m, 16 * m, 0);
    OutputOfKeyAt(16 * m, i);
  }

  lemma FlippingIsMultiple(i: nat, key: Word)
    ensures Flips(key, i) ==> exists m: nat :: m < SIXTEENTH && MultipleKey(i)(m) == key
  {
    hide Output, KeyAt;
    if Flips(key, i) {
      var m := Output(key, i) / 16;
      assert Output(key, i) == 16 * m;
      MultipleKeyFlips(i, m);
      OutputInjectiveInSeed(MultipleKey(i)(m), key, i);
    }
  }

  // At every index, exactly one key in sixteen flips: 2^60 of the 2^64.
  lemma OneInSixteenFlips(i: nat)
    ensures |FlippingKeys(i)| == 0x1000_0000_0000_0000
  {
    hide MultipleKey, Flips, Range;
    var f := MultipleKey(i);
    forall j: nat, k: nat | j < k < SIXTEENTH ensures f(j) != f(k) {
      MultipleKeyFlips(i, j);
      MultipleKeyFlips(i, k);
    }
    RangeOfInjective(f, SIXTEENTH);
    RangeHas(f, SIXTEENTH);
    forall key: nat ensures key in FlippingKeys(i) <==> key in Range(f, SIXTEENTH) {
      if key in FlippingKeys(i) {
        FlippingIsMultiple(i, key);
      }
      if m: nat :| m < SIXTEENTH && f(m) == key {
        MultipleKeyFlips(i, m);
      }
    }
    assert FlippingKeys(i) == Range(f, SIXTEENTH);
  }

  // And it is the low four bits of the draw that decide.
  lemma FlipsIffMultiple(s: seq<Octet>, key: Word, i: nat)
    requires i < |s|
    ensures Perturbed(s, key)[i] != s[i] <==> exists m: nat :: Output(key, i) == 16 * m
  {
    hide Output;
    PerturbedOnlyLowBits(s, key, i);
    if Flips(key, i) {
      assert Output(key, i) == 16 * (Output(key, i) / 16);
    }
  }
}
