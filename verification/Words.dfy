/** 64-bit machine words as integers below 2^64, with the wrap-around product and the bit operations
  * that splitmix64 and FNV-1a are made of.
  */
module Words {
  const MODULUS: nat := 0x1_0000_0000_0000_0000

  type Word = x: nat | x < 0x1_0000_0000_0000_0000

  function Wrap(x: int): Word { x % 0x1_0000_0000_0000_0000 }

  function Plus(a: Word, b: Word): Word { Wrap(a + b) }

  function Times(a: Word, b: Word): Word { Wrap(a * b) }

  // Bitwise exclusive or, by the bits from the lowest up.
  function Xor(a: nat, b: nat): nat
    decreases a + b
  {
    if a == 0 then b
    else if b == 0 then a
    else (a % 2 + b % 2) % 2 + 2 * Xor(a / 2, b / 2)
  }

  // a >> k
  function Shr(a: nat, k: nat): nat {
    if k == 0 then a else Shr(a / 2, k - 1)
  }

  function PowerOfTwo(k: nat): (p: nat)
    ensures p >= 1
  {
    if k == 0 then 1 else 2 * PowerOfTwo(k - 1)
  }

  /* ---------- remainders ---------- */

  lemma WrapUnique(x: int, a: Word, k: int)
    requires x == a + MODULUS * k
    ensures Wrap(x) == a
  {
  }

  // Wrapping early or late makes no difference to a sum or a product.
  lemma WrapCongruent(x: int, y: int, c: int)
    ensures Wrap(Wrap(x) + y) == Wrap(x + y)
    ensures Wrap(Wrap(x) * c) == Wrap(x * c)
  {
    var q := x / MODULUS;
    assert x == Wrap(x) + MODULUS * q;
    WrapUnique(x + y, Wrap(Wrap(x) + y), q + (Wrap(x) + y) / MODULUS);
    var p := Wrap(x) * c;
    assert x * c == p + MODULUS * (q * c) by {
      assert (Wrap(x) + MODULUS * q) * c == Wrap(x) * c + MODULUS * (q * c);
    }
    WrapUnique(x * c, Wrap(p), q * c + p / MODULUS);
  }

  // Multiplying by c is undone by multiplying by its inverse.
  lemma TimesInverts(a: Word, c: Word, d: Word)
    requires Times(c, d) == 1
    ensures Times(Times(a, c), d) == a
  {
    WrapCongruent(a * c, 0, d);
    assert c * d == 1 + MODULUS * (c * d / MODULUS);
    var k := c * d / MODULUS;
    assert a * c * d == a * (c * d) == a * (1 + MODULUS * k) == a + MODULUS * (a * k);
    WrapUnique(a * c * d, a, a * k);
  }

  lemma TimesInjective(a: Word, b: Word, c: Word, d: Word)
    requires Times(c, d) == 1
    ensures Times(a, c) == Times(b, c) ==> a == b
  {
    TimesInverts(a, c, d);
    TimesInverts(b, c, d);
  }

  lemma PlusInjective(a: Word, b: Word, c: Word)
    ensures Plus(a, c) == Plus(b, c) ==> a == b
    ensures Plus(c, a) == Plus(c, b) ==> a == b
  {
  }

  /* ---------- exclusive or ---------- */

  lemma {:induction false} XorBits(a: nat, b: nat)
    ensures Xor(a, b) % 2 == (a % 2 + b % 2) % 2
    ensures Xor(a, b) / 2 == Xor(a / 2, b / 2)
  {
    if a != 0 && b != 0 {
      LowestBit((a % 2 + b % 2) % 2, Xor(a / 2, b / 2));
    } else {
      assert Xor(0, a / 2) == a / 2 == Xor(a / 2, 0) && Xor(0, b / 2) == b / 2 == Xor(b / 2, 0);
    }
  }

  lemma LowestBit(bit: nat, rest: nat)
    requires bit < 2
    ensures (bit + 2 * rest) % 2 == bit && (bit + 2 * rest) / 2 == rest
  {
  }

  lemma {:induction false} XorCommutative(a: nat, b: nat)
    ensures Xor(a, b) == Xor(b, a)
    decreases a + b
  {
    if a != 0 && b != 0 {
      XorCommutative(a / 2, b / 2);
    }
  }

  lemma {:induction false} XorAssociative(a: nat, b: nat, c: nat)
    ensures Xor(Xor(a, b), c) == Xor(a, Xor(b, c))
    decreases a + b + c
  {
    if a != 0 && b != 0 && c != 0 {
      var ab, bc := Xor(a, b), Xor(b, c);
      XorAssociative(a / 2, b / 2, c / 2);
      assert Xor(ab, c) / 2 == Xor(a, bc) / 2 by {
        XorBits(a, b);
        XorBits(b, c);
        XorBits(ab, c);
        XorBits(a, bc);
      }
      assert Xor(ab, c) % 2 == Xor(a, bc) % 2 by {
        XorParity(a, b, c);
      }
    }
  }

  lemma XorParity(a: nat, b: nat, c: nat)
    ensures Xor(Xor(a, b), c) % 2 == (a % 2 + b % 2 + c % 2) % 2 == Xor(a, Xor(b, c)) % 2
  {
    hide Xor;
    XorBits(a, b);
    XorBits(b, c);
    XorBits(Xor(a, b), c);
    XorBits(a, Xor(b, c));
    ParityOfSum(a % 2, b % 2, c % 2);
  }

  lemma ParityOfSum(x: nat, y: nat, z: nat)
    ensures ((x + y) % 2 + z) % 2 == (x + y + z) % 2 == (x + (y + z) % 2) % 2
  {
  }

  lemma {:induction false} XorSelf(a: nat)
    ensures Xor(a, a) == 0
  {
    if a != 0 {
      XorSelf(a / 2);
    }
  }

  // Applying the same mask twice restores the value.
  lemma XorUndone(a: nat, m: nat)
    ensures Xor(Xor(a, m), m) == a
    ensures Xor(m, Xor(m, a)) == a
  {
    XorAssociative(a, m, m);
    XorAssociative(m, m, a);
    XorSelf(m);
  }

  lemma XorInjective(a: nat, b: nat, m: nat)
    ensures Xor(a, m) == Xor(b, m) ==> a == b
    ensures Xor(m, a) == Xor(m, b) ==> a == b
  {
    XorUndone(a, m);
    XorUndone(b, m);
  }

  // Exclusive or stays within k bits.
  lemma {:induction false} XorBelow(a: nat, b: nat, k: nat)
    requires a < PowerOfTwo(k) && b < PowerOfTwo(k)
    ensures Xor(a, b) < PowerOfTwo(k)
    decreases k
  {
    if a != 0 && b != 0 {
      XorBelow(a / 2, b / 2, k - 1);
    }
  }

  /* ---------- shifts ---------- */

  lemma {:induction false} ShrOfXor(a: nat, b: nat, k: nat)
    ensures Shr(Xor(a, b), k) == Xor(Shr(a, k), Shr(b, k))
    decreases k
  {
    if k != 0 {
      XorBits(a, b);
      ShrOfXor(a / 2, b / 2, k - 1);
    }
  }

  lemma {:induction false} ShrAdds(a: nat, j: nat, k: nat)
    ensures Shr(Shr(a, j), k) == Shr(a, j + k)
    decreases j
  {
    if j != 0 {
      ShrAdds(a / 2, j - 1, k);
    }
  }

  lemma {:induction false} ShrBelow(a: nat, k: nat)
    ensures Shr(a, k) <= a
    decreases k
  {
    if k != 0 {
      ShrBelow(a / 2, k - 1);
    }
  }

  lemma {:induction false} ShrVanishes(a: nat, k: nat)
    requires a < PowerOfTwo(k)
    ensures Shr(a, k) == 0
    decreases k
  {
    if k != 0 {
      ShrVanishes(a / 2, k - 1);
    }
  }

  lemma {:induction false} PowerOfTwoAdds(j: nat, k: nat)
    ensures PowerOfTwo(j + k) == PowerOfTwo(j) * PowerOfTwo(k)
    decreases j
  {
    if j != 0 {
      PowerOfTwoAdds(j - 1, k);
      assert PowerOfTwo(j + k) == 2 * PowerOfTwo(j - 1 + k);
      assert 2 * (PowerOfTwo(j - 1) * PowerOfTwo(k)) == (2 * PowerOfTwo(j - 1)) * PowerOfTwo(k);
    }
  }

  lemma PowerOfTwoEight()
    ensures PowerOfTwo(8) == 256
  {
  }

  lemma WordIsSixtyFourBits()
    ensures PowerOfTwo(64) == MODULUS
  {
    hide PowerOfTwo;
    PowerOfTwoEight();
    PowerOfTwoAdds(8, 8);
    PowerOfTwoAdds(16, 16);
    PowerOfTwoAdds(32, 32);
  }

  lemma WordClosedUnderXor(a: Word, b: Word)
    ensures Xor(a, b) < MODULUS
  {
    WordIsSixtyFourBits();
    XorBelow(a, b, 64);
  }

  // z ^ (z >> k)
  function XorShift(z: Word, k: nat): Word {
    ShrBelow(z, k);
    WordClosedUnderXor(z, Shr(z, k));
    Xor(z, Shr(z, k))
  }

  // y ^ (y >> k) ^ (y >> 2k), which undoes XorShift(_, k) once 3k reaches the word size.
  function XorUnshift(y: Word, k: nat): Word {
    ShrBelow(y, k);
    ShrBelow(y, 2 * k);
    WordClosedUnderXor(y, Shr(y, k));
    WordClosedUnderXor(Xor(y, Shr(y, k)), Shr(y, 2 * k));
    Xor(Xor(y, Shr(y, k)), Shr(y, 2 * k))
  }

  lemma XorShiftInverts(z: Word, k: nat)
    requires 22 <= k
    ensures XorUnshift(XorShift(z, k), k) == z
    ensures XorShift(XorUnshift(z, k), k) == z
  {
    hide Shr, PowerOfTwo, Xor;
    WordIsSixtyFourBits();
    var s1, s2 := Shr(z, k), Shr(z, 2 * k);
    ShrAdds(z, k, k);
    ShrAdds(z, 2 * k, k);
    ShrAdds(z, k, 2 * k);
    ShrAdds(z, 64, 3 * k - 64);
    ShrVanishes(z, 64);
    ShrOfZero(3 * k - 64);
    assert Shr(z, 3 * k) == 0;
    // Forward then back: (z ^ s1) ^ (s1 ^ s2) ^ (s2 ^ 0).
    var y := XorShift(z, k);
    ShrOfXor(z, s1, k);
    ShrOfXor(z, s1, 2 * k);
    XorWithZero(s2);
    XorWithZero(Xor(s1, s2));
    assert Shr(y, k) == Xor(s1, s2) && Shr(y, 2 * k) == Xor(s2, 0) == s2;
    Telescope(z, s1, s2);
    // Back then forward: ((z ^ s1) ^ s2) ^ ((s1 ^ s2) ^ 0).
    var x := XorUnshift(z, k);
    ShrOfXor(Xor(z, s1), s2, k);
    ShrOfXor(z, s1, k);
    assert Shr(x, k) == Xor(Xor(s1, s2), 0) == Xor(s1, s2);
    XorAssociative(z, s1, s2);
    XorUndone(z, Xor(s1, s2));
  }

  lemma XorWithZero(a: nat)
    ensures Xor(a, 0) == a
  {
  }

  lemma {:induction false} ShrOfZero(k: nat)
    ensures Shr(0, k) == 0
  {
    if k != 0 {
      ShrOfZero(k - 1);
    }
  }

  lemma Telescope(z: nat, a: nat, b: nat)
    ensures Xor(Xor(Xor(z, a), Xor(a, b)), b) == z
  {
    XorAssociative(Xor(z, a), a, b);
    XorUndone(z, a);
    XorUndone(z, b);
  }
}
