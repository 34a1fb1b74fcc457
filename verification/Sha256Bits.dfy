/** The logical functions of section 4.1.2 of FIPS 180-4, bit by bit. */
module Sha256Bits {
  import opened Sha256

  /** Bit `i` of a number, from the least significant one. */
  function Bit(x: nat, i: nat): (b: nat)
    ensures b < 2
    decreases i
  {
    if i == 0 then x % 2 else Bit(x / 2, i - 1)
  }

  lemma HalvedFirst(x: nat, d: nat)
    requires d > 0
    ensures x / (2 * d) == x / 2 / d
  {
    var h := x / 2;
    var q, r := h / d, h % d;
    assert h == q * d + r;
    assert q * (2 * d) == 2 * (q * d);
    DivisionUnique(x, 2 * d, q, 2 * r + x % 2);
  }

  /** The bit as a quotient by a power of two. */
  lemma {:induction false} BitExact(x: nat, i: nat)
    ensures Bit(x, i) == x / Power2(i) % 2
    decreases i
  {
    if i > 0 {
      BitExact(x / 2, i - 1);
      HalvedFirst(x, Power2(i - 1));
    }
  }

  // ----- the connectives -----

  lemma XorHalves(n: nat, x: nat, y: nat)
    requires n > 0
    ensures XorBits(n, x, y) / 2 == XorBits(n - 1, x / 2, y / 2) && XorBits(n, x, y) % 2 == (x % 2 + y % 2) % 2
  {
    var rest, bit := XorBits(n - 1, x / 2, y / 2), (x % 2 + y % 2) % 2;
    assert XorBits(n, x, y) == 2 * rest + bit;
  }

  lemma {:induction false} XorBitsAt(n: nat, x: nat, y: nat, i: nat)
    requires i < n
    ensures Bit(XorBits(n, x, y), i) == (Bit(x, i) + Bit(y, i)) % 2
  {
    XorHalves(n, x, y);
    if i > 0 {
      XorBitsAt(n - 1, x / 2, y / 2, i - 1);
    }
  }

  lemma XorAt(x: word, y: word, i: nat)
    requires i < 32
    ensures Bit(Xor(x, y), i) == (Bit(x, i) + Bit(y, i)) % 2
  {
    XorBitsAt(WORD_BITS, x, y, i);
  }

  lemma AndAt(x: word, y: word, i: nat)
    requires i < 32
    ensures Bit(And(x, y), i) == Bit(x, i) * Bit(y, i)
  {
    AndBitsAt(WORD_BITS, x, y, i);
  }

  lemma AndHalves(n: nat, x: nat, y: nat)
    requires n > 0
    ensures AndBits(n, x, y) / 2 == AndBits(n - 1, x / 2, y / 2) && AndBits(n, x, y) % 2 == (x % 2) * (y % 2)
  {
    var rest, bit := AndBits(n - 1, x / 2, y / 2), (x % 2) * (y % 2);
    assert AndBits(n, x, y) == 2 * rest + bit;
    assert 0 <= bit < 2;
  }

  lemma {:induction false} AndBitsAt(n: nat, x: nat, y: nat, i: nat)
    requires i < n
    ensures Bit(AndBits(n, x, y), i) == Bit(x, i) * Bit(y, i)
  {
    AndHalves(n, x, y);
    if i > 0 {
      AndBitsAt(n - 1, x / 2, y / 2, i - 1);
    }
  }

  lemma {:induction false} ComplementAt(n: nat, x: nat, i: nat)
    requires i < n && x < Power2(n)
    ensures Bit(Power2(n) - 1 - x, i) == 1 - Bit(x, i)
  {
    if i > 0 {
      assert (Power2(n) - 1 - x) / 2 == Power2(n - 1) - 1 - x / 2;
      ComplementAt(n - 1, x / 2, i - 1);
    }
  }

  lemma NotAt(x: word, i: nat)
    requires i < 32
    ensures Bit(Not(x), i) == 1 - Bit(x, i)
  {
    Power2Word();
    ComplementAt(32, x, i);
  }

  // ----- shifts and rotations -----

  lemma {:induction false} ShrAt(x: word, n: nat, i: nat)
    ensures Bit(Shr(x, n), i) == Bit(x, i + n)
  {
    if n > 0 {
      ShrAt(x, n - 1, i + 1);
    }
  }

  /** A bit put on top of smaller ones. */
  lemma {:induction false} TopBit(low: nat, top: nat, m: nat, i: nat)
    requires low < Power2(m) && top < 2 && i <= m
    ensures Bit(low + top * Power2(m), i) == if i == m then top else Bit(low, i)
  {
    if i > 0 {
      assert top * Power2(m) == 2 * (top * Power2(m - 1));
      assert (low + top * Power2(m)) / 2 == low / 2 + top * Power2(m - 1);
      TopBit(low / 2, top, m - 1, i - 1);
    }
  }

  lemma RotatedAt(x: word, i: nat)
    requires i < 32
    ensures Bit(x / 2 + x % 2 * 0x8000_0000, i) == Bit(x, (i + 1) % 32)
  {
    Power2Word();
    TopBit(x / 2, x % 2, 31, i);
  }

  lemma {:induction false} RotrAt(x: word, n: nat, i: nat)
    requires i < 32
    ensures Bit(Rotr(x, n), i) == Bit(x, (i + n) % 32)
  {
    if n > 0 {
      RotatedAt(Rotr(x, n - 1), i);
      RotrAt(x, n - 1, (i + 1) % 32);
      Wrapped32(i, n);
    }
  }

  lemma Wrapped32(i: nat, n: nat)
    requires i < 32 && n > 0
    ensures ((i + 1) % 32 + (n - 1)) % 32 == (i + n) % 32
  {
  }

  // ----- the six functions -----

  /** The first argument chooses between the other two. */
  lemma ChAt(x: word, y: word, z: word, i: nat)
    requires i < 32
    ensures Bit(Ch(x, y, z), i) == if Bit(x, i) == 1 then Bit(y, i) else Bit(z, i)
  {
    XorAt(And(x, y), And(Not(x), z), i);
    AndAt(x, y, i);
    AndAt(Not(x), z, i);
    NotAt(x, i);
    ChoiceOf(Bit(x, i), Bit(y, i), Bit(z, i));
  }

  lemma ChoiceOf(a: nat, b: nat, c: nat)
    requires a < 2 && b < 2 && c < 2
    ensures (a * b + (1 - a) * c) % 2 == if a == 1 then b else c
  {
  }

  lemma MajorityOf(a: nat, b: nat, c: nat)
    requires a < 2 && b < 2 && c < 2
    ensures ((a * b + a * c) % 2 + b * c) % 2 == if a + b + c >= 2 then 1 else 0
  {
    if a == 0 {
    } else if b == 0 {
    } else {
    }
  }

  /** The majority of three bits. */
  lemma MajAt(x: word, y: word, z: word, i: nat)
    requires i < 32
    ensures Bit(Maj(x, y, z), i) == if Bit(x, i) + Bit(y, i) + Bit(z, i) >= 2 then 1 else 0
  {
    XorAt(Xor(And(x, y), And(x, z)), And(y, z), i);
    XorAt(And(x, y), And(x, z), i);
    AndAt(x, y, i);
    AndAt(x, z, i);
    AndAt(y, z, i);
    MajorityOf(Bit(x, i), Bit(y, i), Bit(z, i));
  }

  /** The parity of three bits. */
  function Parity(a: nat, b: nat, c: nat): nat {
    (a + b + c) % 2
  }

  lemma ParityOf(a: nat, b: nat, c: nat)
    ensures ((a + b) % 2 + c) % 2 == Parity(a, b, c)
  {
  }

  lemma XorOnto(ab: word, c: word, i: nat, p: nat, q: nat)
    requires i < 32 && Bit(ab, i) == (p + q) % 2
    ensures Bit(Xor(ab, c), i) == Parity(p, q, Bit(c, i))
  {
    XorAt(ab, c, i);
    ParityOf(p, q, Bit(c, i));
  }

  lemma XorThreeAt(a: word, b: word, c: word, i: nat)
    requires i < 32
    ensures Bit(Xor(Xor(a, b), c), i) == Parity(Bit(a, i), Bit(b, i), Bit(c, i))
  {
    XorAt(a, b, i);
    XorOnto(Xor(a, b), c, i, Bit(a, i), Bit(b, i));
  }

  lemma BigSigmasAt(x: word, i: nat)
    requires i < 32
    ensures Bit(BigSigma0(x), i) == Parity(Bit(x, (i + 2) % 32), Bit(x, (i + 13) % 32), Bit(x, (i + 22) % 32))
    ensures Bit(BigSigma1(x), i) == Parity(Bit(x, (i + 6) % 32), Bit(x, (i + 11) % 32), Bit(x, (i + 25) % 32))
  {
    XorThreeAt(Rotr(x, 2), Rotr(x, 13), Rotr(x, 22), i);
    XorThreeAt(Rotr(x, 6), Rotr(x, 11), Rotr(x, 25), i);
    RotrAt(x, 2, i);
    RotrAt(x, 13, i);
    RotrAt(x, 22, i);
    RotrAt(x, 6, i);
    RotrAt(x, 11, i);
    RotrAt(x, 25, i);
  }

  /** Bits shifted in from above are zero. */
  lemma {:induction false} HighBitsZero(x: nat, m: nat, i: nat)
    requires x < Power2(m) && i >= m
    ensures Bit(x, i) == 0
    decreases i
  {
    if i > 0 {
      if m > 0 {
        HighBitsZero(x / 2, m - 1, i - 1);
      } else {
        HighBitsZero(x / 2, 0, i - 1);
      }
    }
  }

  function ShiftedBit(x: word, i: nat): nat {
    if i < 32 then Bit(x, i) else 0
  }

  lemma ShrBelow(x: word, n: nat, i: nat)
    ensures Bit(Shr(x, n), i) == ShiftedBit(x, i + n)
  {
    ShrAt(x, n, i);
    Power2Word();
    if i + n >= 32 {
      HighBitsZero(x, 32, i + n);
    }
  }

  lemma SmallSigmasAt(x: word, i: nat)
    requires i < 32
    ensures Bit(SmallSigma0(x), i) == Parity(Bit(x, (i + 7) % 32), Bit(x, (i + 18) % 32), ShiftedBit(x, i + 3))
    ensures Bit(SmallSigma1(x), i) == Parity(Bit(x, (i + 17) % 32), Bit(x, (i + 19) % 32), ShiftedBit(x, i + 10))
  {
    XorThreeAt(Rotr(x, 7), Rotr(x, 18), Shr(x, 3), i);
    XorThreeAt(Rotr(x, 17), Rotr(x, 19), Shr(x, 10), i);
    RotrAt(x, 7, i);
    RotrAt(x, 18, i);
    RotrAt(x, 17, i);
    RotrAt(x, 19, i);
    ShrBelow(x, 3, i);
    ShrBelow(x, 10, i);
  }

  /** Words are determined by their bits, so these laws fix the six functions. */
  lemma {:induction false} SameBits(x: nat, y: nat, n: nat)
    requires x < Power2(n) && y < Power2(n) && forall i: nat :: i < n ==> Bit(x, i) == Bit(y, i)
    ensures x == y
  {
    if n > 0 {
      assert Bit(x, 0) == Bit(y, 0);
      forall i: nat | i < n - 1 ensures Bit(x / 2, i) == Bit(y / 2, i) {
        assert Bit(x, i + 1) == Bit(x / 2, i) && Bit(y, i + 1) == Bit(y / 2, i);
        assert Bit(x, i + 1) == Bit(y, i + 1);
      }
      SameBits(x / 2, y / 2, n - 1);
    }
  }
}
