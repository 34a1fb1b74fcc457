/** Where the constants of SHA-256 come from: fractional parts of roots of the first primes. */
module Sha256Constants {
  import opened Sha256

  // ----- the first 64 primes -----

  predicate Divides(d: nat, n: nat) {
    d > 0 && n % d == 0
  }

  ghost predicate IsPrime(n: nat) {
    n >= 2 && forall d :: 2 <= d < n ==> !Divides(d, n)
  }

  /** `q` is the prime after `p`. */
  ghost predicate NextPrime(p: nat, q: nat) {
    p < q && IsPrime(q) && forall n :: p < n < q ==> !IsPrime(n)
  }

  function PrimeRow(row: nat): (r: seq<nat>)
    ensures |r| == 8
  {
    if row == 0 then [2, 3, 5, 7, 11, 13, 17, 19]
    else if row == 1 then [23, 29, 31, 37, 41, 43, 47, 53]
    else if row == 2 then [59, 61, 67, 71, 73, 79, 83, 89]
    else if row == 3 then [97, 101, 103, 107, 109, 113, 127, 131]
    else if row == 4 then [137, 139, 149, 151, 157, 163, 167, 173]
    else if row == 5 then [179, 181, 191, 193, 197, 199, 211, 223]
    else if row == 6 then [227, 229, 233, 239, 241, 251, 257, 263]
    else [269, 271, 277, 281, 283, 293, 307, 311]
  }

  /** The `t`-th prime, from 0. */
  function Prime(t: nat): nat
    requires t < 64
  {
    PrimeRow(t / 8)[t % 8]
  }

  /** No prime below 19 divides `n`, `n` itself left out. */
  predicate NoDivisor(n: nat) {
    && (n == 2 || n % 2 != 0) && (n == 3 || n % 3 != 0) && (n == 5 || n % 5 != 0) && (n == 7 || n % 7 != 0)
    && (n == 11 || n % 11 != 0) && (n == 13 || n % 13 != 0) && (n == 17 || n % 17 != 0)
  }

  /** A divisor and its cofactor cannot both pass the square root. */
  lemma Cofactor(n: nat, d: nat) returns (e: nat)
    requires 2 <= d < n < 361 && Divides(d, n)
    ensures 2 <= e < n && e < 19 && Divides(e, n)
  {
    if d < 19 {
      e := d;
    } else {
      e := n / d;
      assert n == d * e;
      CofactorDivides(n, d, e);
    }
  }

  lemma CofactorDivides(n: nat, d: nat, e: nat)
    requires 19 <= d < n < 361 && n == d * e
    ensures 2 <= e < 19 && n % e == 0
  {
    ProductAtLeast(d, e);
    DivisionUnique(n, e, d, 0);
  }

  lemma ProductAtLeast(d: nat, e: nat)
    requires d >= 19
    ensures d * e >= 19 * e && (e == 1 ==> d * e == d)
  {
    assert (d - 19) * e >= 0;
  }

  lemma EvenFactor(n: nat, h: nat)
    requires h > 0 && n % (2 * h) == 0
    ensures n % 2 == 0
  {
    var k := n / (2 * h);
    assert n == 2 * (h * k);
  }

  lemma ThriceFactor(n: nat, h: nat)
    requires h > 0 && n % (3 * h) == 0
    ensures n % 3 == 0
  {
    var k := n / (3 * h);
    assert n == 3 * (h * k);
  }

  lemma SmallDivisor(n: nat, e: nat)
    requires 2 <= e < 19 && e < n && n % e == 0
    ensures !NoDivisor(n)
  {
    if e % 2 == 0 {
      EvenFactor(n, e / 2);
    } else if e % 3 == 0 {
      ThriceFactor(n, e / 3);
    }
  }

  /** Below 19 squared the sieve decides. */
  lemma SieveExact(n: nat)
    requires 2 <= n < 361
    ensures IsPrime(n) <==> NoDivisor(n)
  {
    if NoDivisor(n) {
      forall d | 2 <= d < n ensures !Divides(d, n) {
        if Divides(d, n) {
          var e := Cofactor(n, d);
          SmallDivisor(n, e);
        }
      }
    } else {
      assert n > 2 ==>
        Divides(2, n) || Divides(3, n) || Divides(5, n) || Divides(7, n) || Divides(11, n) || Divides(13, n) || Divides(17, n);
    }
  }

  /** Nothing from `n` up to `q` passes the sieve. */
  predicate NoneBefore(n: nat, q: nat)
    decreases q - n
  {
    n >= q || (!NoDivisor(n) && NoneBefore(n + 1, q))
  }

  lemma {:induction false} NoneBeforeExact(n: nat, q: nat)
    requires 2 <= n && q < 361 && NoneBefore(n, q)
    ensures forall m :: n <= m < q ==> !IsPrime(m)
    decreases q - n
  {
    if n < q {
      SieveExact(n);
      NoneBeforeExact(n + 1, q);
    }
  }

  lemma SievedIsNext(p: nat, after: nat, q: nat)
    requires 2 <= p < q < 361 && after == p + 1 && NoDivisor(q) && NoneBefore(after, q)
    ensures NextPrime(p, q)
  {
    SieveExact(q);
    NoneBeforeExact(after, q);
  }

  /** Each entry of a row is the prime after the one before it. */
  ghost predicate Chained(row: seq<nat>, c: nat)
    decreases |row| - c
  {
    c >= |row| || ((c > 0 ==> NextPrime(row[c - 1], row[c])) && Chained(row, c + 1))
  }

  lemma {:induction false} ChainedAt(row: seq<nat>, c: nat, k: nat)
    requires Chained(row, c) && c <= k < |row| && 0 < k
    ensures NextPrime(row[k - 1], row[k])
    decreases |row| - c
  {
    if c < k {
      ChainedAt(row, c + 1, k);
    }
  }

  lemma PrimesOfRow0()
    ensures Chained(PrimeRow(0), 0)
  {
    SievedIsNext(2, 3, 3);
    SievedIsNext(3, 4, 5);
    SievedIsNext(5, 6, 7);
    SievedIsNext(7, 8, 11);
    SievedIsNext(11, 12, 13);
    SievedIsNext(13, 14, 17);
    SievedIsNext(17, 18, 19);
  }

  lemma PrimesOfRow1()
    ensures Chained(PrimeRow(1), 0) && NextPrime(PrimeRow(0)[7], PrimeRow(1)[0])
  {
    SievedIsNext(19, 20, 23);
    SievedIsNext(23, 24, 29);
    SievedIsNext(29, 30, 31);
    SievedIsNext(31, 32, 37);
    SievedIsNext(37, 38, 41);
    SievedIsNext(41, 42, 43);
    SievedIsNext(43, 44, 47);
    SievedIsNext(47, 48, 53);
  }

  lemma PrimesOfRow2()
    ensures Chained(PrimeRow(2), 0) && NextPrime(PrimeRow(1)[7], PrimeRow(2)[0])
  {
    SievedIsNext(53, 54, 59);
    SievedIsNext(59, 60, 61);
    SievedIsNext(61, 62, 67);
    SievedIsNext(67, 68, 71);
    SievedIsNext(71, 72, 73);
    SievedIsNext(73, 74, 79);
    SievedIsNext(79, 80, 83);
    SievedIsNext(83, 84, 89);
  }

  lemma PrimesOfRow3()
    ensures Chained(PrimeRow(3), 0) && NextPrime(PrimeRow(2)[7], PrimeRow(3)[0])
  {
    SievedIsNext(89, 90, 97);
    SievedIsNext(97, 98, 101);
    SievedIsNext(101, 102, 103);
    SievedIsNext(103, 104, 107);
    SievedIsNext(107, 108, 109);
    SievedIsNext(109, 110, 113);
    SievedIsNext(113, 114, 127);
    SievedIsNext(127, 128, 131);
  }

  lemma PrimesOfRow4()
    ensures Chained(PrimeRow(4), 0) && NextPrime(PrimeRow(3)[7], PrimeRow(4)[0])
  {
    SievedIsNext(131, 132, 137);
    SievedIsNext(137, 138, 139);
    SievedIsNext(139, 140, 149);
    SievedIsNext(149, 150, 151);
    SievedIsNext(151, 152, 157);
    SievedIsNext(157, 158, 163);
    SievedIsNext(163, 164, 167);
    SievedIsNext(167, 168, 173);
  }

  lemma PrimesOfRow5()
    ensures Chained(PrimeRow(5), 0) && NextPrime(PrimeRow(4)[7], PrimeRow(5)[0])
  {
    SievedIsNext(173, 174, 179);
    SievedIsNext(179, 180, 181);
    SievedIsNext(181, 182, 191);
    SievedIsNext(191, 192, 193);
    SievedIsNext(193, 194, 197);
    SievedIsNext(197, 198, 199);
    SievedIsNext(199, 200, 211);
    SievedIsNext(211, 212, 223);
  }

  lemma PrimesOfRow6()
    ensures Chained(PrimeRow(6), 0) && NextPrime(PrimeRow(5)[7], PrimeRow(6)[0])
  {
    SievedIsNext(223, 224, 227);
    SievedIsNext(227, 228, 229);
    SievedIsNext(229, 230, 233);
    SievedIsNext(233, 234, 239);
    SievedIsNext(239, 240, 241);
    SievedIsNext(241, 242, 251);
    SievedIsNext(251, 252, 257);
    SievedIsNext(257, 258, 263);
  }

  lemma PrimesOfRow7()
    ensures Chained(PrimeRow(7), 0) && NextPrime(PrimeRow(6)[7], PrimeRow(7)[0])
  {
    SievedIsNext(263, 264, 269);
    SievedIsNext(269, 270, 271);
    SievedIsNext(271, 272, 277);
    SievedIsNext(277, 278, 281);
    SievedIsNext(281, 282, 283);
    SievedIsNext(283, 284, 293);
    SievedIsNext(293, 294, 307);
    SievedIsNext(307, 308, 311);
  }

  lemma PrimesOfRow(row: nat)
    requires row < 8
    ensures Chained(PrimeRow(row), 0) && (row > 0 ==> NextPrime(PrimeRow(row - 1)[7], PrimeRow(row)[0]))
  {
    match row
    case 0 => PrimesOfRow0();
    case 1 => PrimesOfRow1();
    case 2 => PrimesOfRow2();
    case 3 => PrimesOfRow3();
    case 4 => PrimesOfRow4();
    case 5 => PrimesOfRow5();
    case 6 => PrimesOfRow6();
    case _ => PrimesOfRow7();
  }

  /** The table is the list of the first 64 primes. */
  lemma PrimesExact(t: nat)
    requires t < 64
    ensures IsPrime(Prime(t)) && (t == 0 ==> Prime(t) == 2) && (t > 0 ==> NextPrime(Prime(t - 1), Prime(t)))
  {
    PrimesOfRow(t / 8);
    if t == 0 {
      SieveExact(2);
    } else if t % 8 == 0 {
      assert (t - 1) / 8 == t / 8 - 1 && (t - 1) % 8 == 7;
    } else {
      assert (t - 1) / 8 == t / 8 && (t - 1) % 8 == t % 8 - 1;
      ChainedAt(PrimeRow(t / 8), 0, t % 8);
    }
  }

  // ----- roots -----

  const TWO64 := 0x1_0000_0000_0000_0000
  const TWO96 := 0x1_0000_0000_0000_0000_0000_0000

  /** `whole` and the 32-bit fraction `k` are the first bits of the cube root of `p`. */
  predicate CubeRoot(p: nat, whole: nat, k: word) {
    var n := whole * TWO32 + k;
    n * n * n <= p * TWO96 < (n + 1) * (n + 1) * (n + 1)
  }

  predicate SquareRoot(p: nat, whole: nat, h: word) {
    var n := whole * TWO32 + h;
    n * n <= p * TWO64 < (n + 1) * (n + 1)
  }

  /** The integer part of the cube root, for the primes below 343. */
  function WholeCube(p: nat): nat {
    if p < 8 then 1 else if p < 27 then 2 else if p < 64 then 3 else if p < 125 then 4 else if p < 216 then 5 else 6
  }

  function WholeSquare(p: nat): nat {
    if p < 4 then 1 else if p < 9 then 2 else if p < 16 then 3 else 4
  }

  predicate RowOfCubes(ps: seq<nat>, ks: seq<word>, c: nat)
    requires |ps| == |ks|
    decreases |ps| - c
  {
    c >= |ps| || (CubeRoot(ps[c], WholeCube(ps[c]), ks[c]) && RowOfCubes(ps, ks, c + 1))
  }

  lemma {:induction false} RowOfCubesAt(ps: seq<nat>, ks: seq<word>, c: nat, k: nat)
    requires |ps| == |ks| && RowOfCubes(ps, ks, c) && c <= k < |ps|
    ensures CubeRoot(ps[k], WholeCube(ps[k]), ks[k])
    decreases |ps| - c
  {
    if c < k {
      RowOfCubesAt(ps, ks, c + 1, k);
    }
  }

  lemma CubesOfRows0()
    ensures RowOfCubes(PrimeRow(0), ConstantRow(0), 0) && RowOfCubes(PrimeRow(1), ConstantRow(1), 0)
  {
  }

  lemma CubesOfRows1()
    ensures RowOfCubes(PrimeRow(2), ConstantRow(2), 0) && RowOfCubes(PrimeRow(3), ConstantRow(3), 0)
  {
  }

  lemma CubesOfRows2()
    ensures RowOfCubes(PrimeRow(4), ConstantRow(4), 0) && RowOfCubes(PrimeRow(5), ConstantRow(5), 0)
  {
  }

  lemma CubesOfRows3()
    ensures RowOfCubes(PrimeRow(6), ConstantRow(6), 0) && RowOfCubes(PrimeRow(7), ConstantRow(7), 0)
  {
  }

  lemma CubesOfRow(row: nat)
    requires row < 8
    ensures RowOfCubes(PrimeRow(row), ConstantRow(row), 0)
  {
    match row / 2
    case 0 => CubesOfRows0();
    case 1 => CubesOfRows1();
    case 2 => CubesOfRows2();
    case _ => CubesOfRows3();
  }

  lemma ConstantAt(t: nat)
    requires t < 64
    ensures |K| == 64 && K[t] == ConstantRow(t / 8)[t % 8]
  {
  }

  /** Section 4.2.2 of FIPS 180-4: the first 32 fractional bits of the cube roots of the first 64 primes. */
  lemma ConstantsExact(t: nat)
    requires t < 64
    ensures |K| == 64 && CubeRoot(Prime(t), WholeCube(Prime(t)), K[t])
  {
    ConstantAt(t);
    CubesOfRow(t / 8);
    RowOfCubesAt(PrimeRow(t / 8), ConstantRow(t / 8), 0, t % 8);
  }

  /** Section 5.3.3: the first 32 fractional bits of the square roots of the first 8 primes. */
  lemma InitialExact(t: nat)
    requires t < 8
    ensures SquareRoot(Prime(t), WholeSquare(Prime(t)), H0[t])
  {
  }
}
