/** Keyed readback noise and per-origin key derivation (src/anti_fp.c).
  *
  * The generator is specified by its n-th state and its i-th output, the noise by which byte
  * positions it flips, and the origin key by the hash of the domain.
  */
module AntiFp {
  import opened Words
  import opened Wrappers

  type Octet = b: nat | b < 256

  // The bytes of a C string, without the terminating NUL.
  type CString = s: seq<Octet> | 0 !in s witness []

  const GAMMA: Word := 0x9e3779b97f4a7c15
  const MIX_A: Word := 0xbf58476d1ce4e5b9
  const MIX_B: Word := 0x94d049bb133111eb
  const FNV_BASIS: Word := 0xcbf29ce484222325
  const FNV_PRIME: Word := 0x00000100000001b3

  // Inverses modulo 2^64 of the odd factors above.
  const GAMMA_INV: Word := 0xf1de83e19937733d
  const MIX_A_INV: Word := 0x96de1b173f119089
  const MIX_B_INV: Word := 0x319642b2d24d8ec3
  const FNV_PRIME_INV: Word := 0xce965057aff6957b

  lemma OddFactorsInvert()
    ensures Times(GAMMA, GAMMA_INV) == 1
    ensures Times(MIX_A, MIX_A_INV) == 1 && Times(MIX_A_INV, MIX_A) == 1
    ensures Times(MIX_B, MIX_B_INV) == 1 && Times(MIX_B_INV, MIX_B) == 1
    ensures Times(FNV_PRIME, FNV_PRIME_INV) == 1
  {
  }

  /* ---------- the finaliser is a bijection ---------- */

  // The splitmix64 finaliser, applied to the state after GAMMA has been added.
  function Mix(z: Word): Word {
    XorShift(Times(XorShift(Times(XorShift(z, 30), MIX_A), 27), MIX_B), 31)
  }

  // Undoes the steps of Mix in reverse order.
  function Unmix(y: Word): Word {
    XorUnshift(Times(XorUnshift(Times(XorUnshift(y, 31), MIX_B_INV), 27), MIX_A_INV), 30)
  }

  lemma MixIsBijective(z: Word)
    ensures Unmix(Mix(z)) == z
    ensures Mix(Unmix(z)) == z
  {
    hide XorShift, XorUnshift, Times;
    OddFactorsInvert();
    var a := XorShift(z, 30);
    var b := XorShift(Times(a, MIX_A), 27);
    XorShiftInverts(z, 30);
    XorShiftInverts(Times(a, MIX_A), 27);
    XorShiftInverts(Times(b, MIX_B), 31);
    TimesInverts(a, MIX_A, MIX_A_INV);
    TimesInverts(b, MIX_B, MIX_B_INV);
    var d := XorUnshift(z, 31);
    var e := XorUnshift(Times(d, MIX_B_INV), 27);
    XorShiftInverts(z, 31);
    XorShiftInverts(Times(d, MIX_B_INV), 27);
    XorShiftInverts(Times(e, MIX_A_INV), 30);
    TimesInverts(d, MIX_B_INV, MIX_B);
    TimesInverts(e, MIX_A_INV, MIX_A);
  }

  lemma MixInjective(a: Word, b: Word)
    ensures Mix(a) == Mix(b) ==> a == b
  {
    hide Mix, Unmix;
    MixIsBijective(a);
    MixIsBijective(b);
  }

  /* ---------- the generator ---------- */

  // The generator's state after n draws from a given seed.
  function StateAt(seed: Word, n: nat): Word {
    if n == 0 then seed else Plus(StateAt(seed, n - 1), GAMMA)
  }

  // The i-th output, counting from 0.
  function Output(seed: Word, i: nat): Word {
    Mix(StateAt(seed, i + 1))
  }

  class SplitMix64 {
    var state: Word

    constructor (seed: Word)
      ensures state == seed
    {
      state := seed;
    }

    method Next() returns (out: Word)
      modifies this
      ensures state == Plus(old(state), GAMMA)
      ensures out == Mix(state)
    {
      state := Plus(state, GAMMA);
      var z := state;
      z := Times(XorShift(z, 30), MIX_A);
      z := Times(XorShift(z, 27), MIX_B);
      out := XorShift(z, 31);
    }
  }

  lemma {:induction false} StateAtClosedForm(seed: Word, n: nat)
    ensures StateAt(seed, n) == Wrap(seed + n * GAMMA)
  {
    if n != 0 {
      StateAtClosedForm(seed, n - 1);
      WrapCongruent(seed + (n - 1) * GAMMA, GAMMA, 0);
      assert seed + (n - 1) * GAMMA + GAMMA == seed + n * GAMMA;
    }
  }

  // Drawing m times and then n times is drawing m + n times.
  lemma {:induction false} StateAtAdds(seed: Word, m: nat, n: nat)
    ensures StateAt(StateAt(seed, m), n) == StateAt(seed, m + n)
  {
    if n != 0 {
      StateAtAdds(seed, m, n - 1);
    }
  }

  // The states after i and after j draws coincide only when 2^64 divides j - i.
  lemma StatesCoincideIff(seed: Word, i: nat, j: nat)
    ensures StateAt(seed, i) == StateAt(seed, j) <==> (j - i) % MODULUS == 0
  {
    hide Plus;
    OddFactorsInvert();
    StateAtClosedForm(seed, i);
    StateAtClosedForm(seed, j);
    var x, y := seed + i * GAMMA, seed + j * GAMMA;
    var d := j - i;
    assert y - x == d * GAMMA;
    WrapCongruent(d, 0, GAMMA);
    if Wrap(x) == Wrap(y) {
      var k := y / MODULUS - x / MODULUS;
      assert d * GAMMA == MODULUS * k;
      WrapUnique(d * GAMMA, 0, k);
      TimesInverts(Wrap(d), GAMMA, GAMMA_INV);
    }
    if d % MODULUS == 0 {
      var k := d / MODULUS;
      assert y == x + MODULUS * (k * GAMMA) by {
        assert d * GAMMA == (MODULUS * k) * GAMMA == MODULUS * (k * GAMMA);
      }
      WrapUnique(y, Wrap(x), k * GAMMA + x / MODULUS);
    }
  }

  // One key's outputs repeat with period exactly 2^64: within 2^64 consecutive draws all are distinct.
  lemma OutputsCoincideIff(seed: Word, i: nat, j: nat)
    ensures Output(seed, i) == Output(seed, j) <==> (j - i) % MODULUS == 0
  {
    hide Mix;
    StatesCoincideIff(seed, i + 1, j + 1);
    MixInjective(StateAt(seed, i + 1), StateAt(seed, j + 1));
  }

  // At any one index, distinct keys give distinct outputs.
  lemma OutputInjectiveInSeed(s1: Word, s2: Word, i: nat)
    ensures Output(s1, i) == Output(s2, i) ==> s1 == s2
  {
    hide Mix;
    MixInjective(StateAt(s1, i + 1), StateAt(s2, i + 1));
    StateAtClosedForm(s1, i + 1);
    StateAtClosedForm(s2, i + 1);
    var g := (i + 1) * GAMMA;
    WrapCongruent(g, s1, 0);
    WrapCongruent(g, s2, 0);
    PlusInjective(s1, s2, Wrap(g));
  }

  /* ---------- fp_perturb ---------- */

  // Whether the noise keyed by `key` selects the byte at index i: the low four bits of the draw are 0.
  predicate Flips(key: Word, i: nat) {
    Output(key, i) % 16 == 0
  }

  // b ^ 1
  function FlipLowBit(b: Octet): (r: Octet)
    ensures r == Xor(b, 1)
    ensures r / 2 == b / 2 && r % 2 == 1 - b % 2
  {
    XorBits(b, 1);
    Xor(b, 1)
  }

  // The buffer with the noise applied.
  function Perturbed(s: seq<Octet>, key: Word): seq<Octet> {
    seq(|s|, i requires 0 <= i < |s| => if Flips(key, i) then FlipLowBit(s[i]) else s[i])
  }

  method Perturb(buf: array?<Octet>, len: nat, sessionKey: Word)
    requires buf != null ==> len <= buf.Length
    modifies if buf == null then {} else {buf}
    ensures buf != null ==> buf[..] == Perturbed(old(buf[..len]), sessionKey) + old(buf[len..])
  {
    hide Mix, Plus, FlipLowBit;
    if buf == null || len == 0 {
      return;
    }
    var gen := new SplitMix64(sessionKey);
    ghost var was := buf[..];
    for i := 0 to len
      invariant fresh(gen) && gen.state == StateAt(sessionKey, i)
      invariant forall k :: 0 <= k < i ==> buf[k] == if Flips(sessionKey, k) then FlipLowBit(was[k]) else was[k]
      invariant forall k :: i <= k < buf.Length ==> buf[k] == was[k]
    {
      var out := gen.Next();
      if out % 16 == 0 {
        buf[i] := FlipLowBit(buf[i]);
      }
    }
    assert was[..len] == old(buf[..len]) && was[len..] == old(buf[len..]);
    assert buf[..len] == Perturbed(was[..len], sessionKey);
    assert buf[..] == buf[..len] + buf[len..];
  }

  // Noise touches least-significant bits only, and exactly at the selected positions.
  lemma PerturbedOnlyLowBits(s: seq<Octet>, key: Word, i: nat)
    requires i < |s|
    ensures Perturbed(s, key)[i] / 2 == s[i] / 2
    ensures Perturbed(s, key)[i] % 2 != s[i] % 2 <==> Flips(key, i)
  {
  }

  // The noise is its own inverse.
  lemma PerturbedInvolution(s: seq<Octet>, key: Word)
    ensures Perturbed(Perturbed(s, key), key) == s
  {
    forall i | 0 <= i < |s| ensures Perturbed(Perturbed(s, key), key)[i] == s[i] {
      XorUndone(s[i], 1);
    }
  }

  // Skipping m draws is advancing the key by m increments.
  lemma FlipsAdvance(key: Word, m: nat, i: nat)
    ensures Flips(key, m + i) <==> Flips(Wrap(key + m * GAMMA), i)
  {
    hide Mix, Plus;
    StateAtClosedForm(key, m);
    StateAtAdds(key, m, i + 1);
  }

  // Perturbing a concatenation is perturbing its parts, the second under the key advanced by |a| draws.
  lemma PerturbedStreams(a: seq<Octet>, b: seq<Octet>, key: Word)
    ensures Perturbed(a + b, key) == Perturbed(a, key) + Perturbed(b, Wrap(key + |a| * GAMMA))
  {
    hide Flips, FlipLowBit, Wrap;
    var key' := Wrap(key + |a| * GAMMA);
    forall i | 0 <= i < |b| ensures Flips(key, |a| + i) == Flips(key', i) {
      FlipsAdvance(key, |a|, i);
    }
  }

  // What follows a byte never changes its noise.
  lemma PerturbedPrefixStable(a: seq<Octet>, b: seq<Octet>, key: Word)
    ensures Perturbed(a + b, key)[..|a|] == Perturbed(a, key)
  {
    PerturbedStreams(a, b, key);
  }

  // The key whose first output is y.
  function KeyWithFirstOutput(y: Word): Word {
    Wrap(Unmix(y) - GAMMA)
  }

  lemma FirstOutputIsAnything(y: Word)
    ensures Output(KeyWithFirstOutput(y), 0) == y
  {
    hide Mix, Unmix;
    var key := KeyWithFirstOutput(y);
    WrapCongruent(Unmix(y) - GAMMA, GAMMA, 0);
    WrapUnique(Unmix(y), Unmix(y), 0);
    assert StateAt(key, 1) == Plus(StateAt(key, 0), GAMMA) == Unmix(y);
    MixIsBijective(y);
  }

  // The header's "different key => different output" is not a law of the code: these two keys leave
  // every one-byte buffer alone. Two keys give the same buffer exactly when they select the same
  // positions (SameNoiseIff), and for every short length some two keys do (SomeKeysShareNoise).
  lemma DifferentKeysMayAgree(b: Octet)
    ensures KeyWithFirstOutput(1) != KeyWithFirstOutput(2)
    ensures Perturbed([b], KeyWithFirstOutput(1)) == Perturbed([b], KeyWithFirstOutput(2)) == [b]
  {
    hide KeyWithFirstOutput, Output, FlipLowBit;
    FirstOutputIsAnything(1);
    FirstOutputIsAnything(2);
  }

  lemma SameNoiseIff(s: seq<Octet>, k1: Word, k2: Word)
    ensures Perturbed(s, k1) == Perturbed(s, k2) <==>
            forall i {:trigger Flips(k1, i)} {:trigger Flips(k2, i)} :: 0 <= i < |s| ==> (Flips(k1, i) <==> Flips(k2, i))
  {
    forall i | 0 <= i < |s|
      ensures Perturbed(s, k1)[i] == Perturbed(s, k2)[i] <==> (Flips(k1, i) <==> Flips(k2, i))
    {
      PerturbedOnlyLowBits(s, k1, i);
      PerturbedOnlyLowBits(s, k2, i);
    }
    if Perturbed(s, k1) == Perturbed(s, k2) {
      forall i | 0 <= i < |s| ensures Flips(k1, i) <==> Flips(k2, i) {
        assert Perturbed(s, k1)[i] == Perturbed(s, k2)[i];
      }
    }
  }

  // The first n positions, as a number: 1 for those that flip.
  function MaskOf(key: Word, n: nat): (m: nat)
    ensures m < PowerOfTwo(n)
  {
    if n == 0 then 0 else 2 * MaskOf(key, n - 1) + if Flips(key, n - 1) then 1 else 0
  }

  lemma {:induction false} SameMaskFlipsAlike(k1: Word, k2: Word, n: nat, i: nat)
    requires i < n
    ensures MaskOf(k1, n) == MaskOf(k2, n) ==> (Flips(k1, i) <==> Flips(k2, i))
  {
    hide Flips;
    if i < n - 1 {
      SameMaskFlipsAlike(k1, k2, n - 1, i);
    }
  }

  lemma {:induction false} Pigeonhole(f: nat -> nat, pigeons: nat, holes: nat) returns (i: nat, j: nat)
    requires holes < pigeons && forall k: nat :: k < pigeons ==> f(k) < holes
    ensures i < j < pigeons && f(i) == f(j)
    decreases holes
  {
    var last := pigeons - 1;
    if k: nat :| k < last && f(k) == f(last) {
      return k, last;
    }
    var g := (k: nat) => if f(k) > f(last) then f(k) - 1 else f(k);
    assert f(last) < holes;
    i, j := Pigeonhole(g, last, holes - 1);
  }

  // For buffers of any one length below 64, some two keys make the same noise on all of them: there are
  // fewer ways to flip than keys.
  lemma SomeKeysShareNoise(n: nat) returns (k1: Word, k2: Word)
    requires n < 64
    ensures k1 != k2
    ensures forall s: seq<Octet> :: |s| == n ==> Perturbed(s, k1) == Perturbed(s, k2)
  {
    hide MaskOf, Perturbed, Flips;
    WordIsSixtyFourBits();
    PowerOfTwoGrows(n, 64);
    var i, j := Pigeonhole((k: nat) => if k < MODULUS then MaskOf(k, n) else 0, MODULUS, PowerOfTwo(n));
    k1, k2 := i, j;
    forall s: seq<Octet> | |s| == n ensures Perturbed(s, k1) == Perturbed(s, k2) {
      forall p: nat | p < n ensures Flips(k1, p) <==> Flips(k2, p) {
        SameMaskFlipsAlike(k1, k2, n, p);
      }
      SameNoiseIff(s, k1, k2);
    }
  }

  lemma {:induction false} PowerOfTwoGrows(n: nat, m: nat)
    requires n < m
    ensures PowerOfTwo(n) < PowerOfTwo(m)
    decreases m
  {
    if n < m - 1 {
      PowerOfTwoGrows(n, m - 1);
    }
  }

  /* ---------- fp_origin_key ---------- */

  // One FNV-1a step.
  function FnvStep(h: Word, b: Octet): Word {
    WordClosedUnderXor(h, b);
    Times(Xor(h, b), FNV_PRIME)
  }

  // FNV-1a over the bytes, from a given hash state.
  function FnvFrom(h: Word, s: seq<Octet>): Word
    decreases |s|
  {
    if s == [] then h else FnvFrom(FnvStep(h, s[0]), s[1..])
  }

  // The hash of a domain; NULL and "" both stay at the basis.
  function DomainHash(domain: Option<CString>): Word {
    match domain
    case None => FNV_BASIS
    case Some(s) => FnvFrom(FNV_BASIS, s)
  }

  function KeyedHash(sessionKey: Word, domain: Option<CString>): Word {
    WordClosedUnderXor(sessionKey, DomainHash(domain));
    Xor(sessionKey, DomainHash(domain))
  }

  function OriginKeySpec(sessionKey: Word, domain: Option<CString>): Word {
    Output(KeyedHash(sessionKey, domain), 0)
  }

  method OriginKey(sessionKey: Word, domain: Option<CString>) returns (key: Word)
    ensures key == OriginKeySpec(sessionKey, domain)
  {
    hide Mix, Plus, FnvStep;
    var h: Word := FNV_BASIS;
    if domain.Some? {
      var s := domain.value;
      for p := 0 to |s|
        invariant FnvFrom(h, s[p..]) == FnvFrom(FNV_BASIS, s)
      {
        assert s[p..][0] == s[p] && s[p..][1..] == s[p + 1..];
        h := FnvStep(h, s[p]);
      }
      assert s[|s|..] == [];
    }
    WordClosedUnderXor(sessionKey, h);
    var gen := new SplitMix64(Xor(sessionKey, h));
    key := gen.Next();
    assert StateAt(KeyedHash(sessionKey, domain), 1) == gen.state;
  }

  // Keys coincide exactly when session key and domain hash have the same exclusive or.
  lemma OriginKeysCoincideIff(s1: Word, d1: Option<CString>, s2: Word, d2: Option<CString>)
    ensures OriginKeySpec(s1, d1) == OriginKeySpec(s2, d2) <==>
            Xor(s1, DomainHash(d1)) == Xor(s2, DomainHash(d2))
  {
    hide Output, Xor;
    OutputInjectiveInSeed(KeyedHash(s1, d1), KeyedHash(s2, d2), 0);
  }

  // For one site, distinct sessions never share a key.
  lemma OriginKeyInjectiveInSession(s1: Word, s2: Word, d: Option<CString>)
    requires s1 != s2
    ensures OriginKeySpec(s1, d) != OriginKeySpec(s2, d)
  {
    OriginKeysCoincideIff(s1, d, s2, d);
    XorInjective(s1, s2, DomainHash(d));
  }

  // A step is injective in the hash state and, separately, in the byte.
  lemma FnvStepInjective(h1: Word, h2: Word, a: Octet, b: Octet)
    ensures FnvStep(h1, a) == FnvStep(h2, a) ==> h1 == h2
    ensures FnvStep(h1, a) == FnvStep(h1, b) ==> a == b
  {
    hide Times, Xor;
    OddFactorsInvert();
    WordClosedUnderXor(h1, a);
    WordClosedUnderXor(h1, b);
    WordClosedUnderXor(h2, a);
    TimesInjective(Xor(h1, a), Xor(h2, a), FNV_PRIME, FNV_PRIME_INV);
    TimesInjective(Xor(h1, a), Xor(h1, b), FNV_PRIME, FNV_PRIME_INV);
    XorInjective(h1, h2, a);
    XorInjective(a, b, h1);
  }

  lemma {:induction false} FnvInjectiveInState(h1: Word, h2: Word, s: seq<Octet>)
    requires h1 != h2
    ensures FnvFrom(h1, s) != FnvFrom(h2, s)
    decreases |s|
  {
    if s != [] {
      FnvStepInjective(h1, h2, s[0], s[0]);
      FnvInjectiveInState(FnvStep(h1, s[0]), FnvStep(h2, s[0]), s[1..]);
    }
  }

  lemma {:induction false} FnvConcat(h: Word, s: seq<Octet>, t: seq<Octet>)
    ensures FnvFrom(h, s + t) == FnvFrom(FnvFrom(h, s), t)
    decreases |s|
  {
    hide FnvStep;
    if s == [] {
      assert s + t == t;
    } else {
      assert (s + t)[0] == s[0] && (s + t)[1..] == s[1..] + t;
      FnvConcat(FnvStep(h, s[0]), s[1..], t);
    }
  }

  // Two domains that differ in exactly one byte never share a key under one session.
  lemma OneByteApartNeverShare(sessionKey: Word, d1: CString, d2: CString, k: nat)
    requires |d1| == |d2| && k < |d1| && d1[k] != d2[k]
    requires forall i :: 0 <= i < |d1| && i != k ==> d1[i] == d2[i]
    ensures OriginKeySpec(sessionKey, Some(d1)) != OriginKeySpec(sessionKey, Some(d2))
  {
    hide FnvStep;
    var p, a, b, q := d1[..k], d1[k], d2[k], d1[k + 1..];
    assert d1 == p + ([a] + q) && d2 == p + ([b] + q);
    var h := FnvFrom(FNV_BASIS, p);
    FnvConcat(FNV_BASIS, p, [a] + q);
    FnvConcat(FNV_BASIS, p, [b] + q);
    assert ([a] + q)[1..] == q == ([b] + q)[1..];
    FnvStepInjective(h, h, a, b);
    FnvInjectiveInState(FnvStep(h, a), FnvStep(h, b), q);
    OriginKeysCoincideIff(sessionKey, Some(d1), sessionKey, Some(d2));
    XorInjective(DomainHash(Some(d1)), DomainHash(Some(d2)), sessionKey);
  }

  // The header calls the namespace of NULL and "" distinct from that of any real domain. That is so exactly
  // for the domains that do not hash to the offset basis.
  lemma NullNamespaceIff(sessionKey: Word, d: CString)
    ensures OriginKeySpec(sessionKey, None) == OriginKeySpec(sessionKey, Some(d)) <==> DomainHash(Some(d)) == FNV_BASIS
  {
    hide OriginKeySpec;
    OriginKeysCoincideIff(sessionKey, None, sessionKey, Some(d));
    XorInjective(DomainHash(None), DomainHash(Some(d)), sessionKey);
  }

  // n characters, none of them 0, for each number below 255^n.
  function DomainOf(k: nat, n: nat): (d: CString)
    ensures |d| == n
  {
    if n == 0 then [] else [1 + k % 255] + DomainOf(k / 255, n - 1)
  }

  function PowerOf255(n: nat): nat {
    if n == 0 then 1 else 255 * PowerOf255(n - 1)
  }

  lemma {:induction false} DomainsDiffer(i: nat, j: nat, n: nat)
    requires i < PowerOf255(n) && j < PowerOf255(n) && i != j
    ensures DomainOf(i, n) != DomainOf(j, n)
  {
    if i % 255 == j % 255 {
      DomainsDiffer(i / 255, j / 255, n - 1);
      assert DomainOf(i, n)[1..] == DomainOf(i / 255, n - 1);
      assert DomainOf(j, n)[1..] == DomainOf(j / 255, n - 1);
    } else {
      assert DomainOf(i, n)[0] != DomainOf(j, n)[0];
    }
  }

  lemma NineCharactersSuffice()
    ensures MODULUS + 1 <= PowerOf255(9)
  {
    assert PowerOf255(3) == 255 * 255 * 255;
    assert PowerOf255(6) == 255 * 255 * 255 * PowerOf255(3);
  }

  // Keys of different domains differ with overwhelming probability only: some two domains of nine characters
  // share their key under every session.
  lemma SomeDomainsShareKey() returns (d1: CString, d2: CString)
    ensures d1 != d2 && |d1| == |d2| == 9
    ensures forall sessionKey :: OriginKeySpec(sessionKey, Some(d1)) == OriginKeySpec(sessionKey, Some(d2))
  {
    hide DomainOf, DomainHash, OriginKeySpec, PowerOf255;
    NineCharactersSuffice();
    var i, j := Pigeonhole((k: nat) => DomainHash(Some(DomainOf(k, 9))), MODULUS + 1, MODULUS);
    d1, d2 := DomainOf(i, 9), DomainOf(j, 9);
    DomainsDiffer(i, j, 9);
    forall sessionKey: Word ensures OriginKeySpec(sessionKey, Some(d1)) == OriginKeySpec(sessionKey, Some(d2)) {
      OriginKeysCoincideIff(sessionKey, Some(d1), sessionKey, Some(d2));
    }
  }
}
