/** SHA-256: the hash of sections 5 and 6.2 of FIPS 180-4 on 32-bit words as bounded integers. */
module Sha256 {
  import opened Bytes

  // ----- 32-bit words -----

  type word = uint32

  const TWO32 := 0x1_0000_0000
  const WORD_BITS: nat := 32

  /** Addition modulo 2^32. */
  function Add(x: int, y: int): word {
    (x + y) % TWO32
  }

  function Power2(n: nat): (p: nat)
    ensures p >= 1
  {
    if n == 0 then 1 else 2 * Power2(n - 1)
  }

  lemma Power2Word()
    ensures Power2(32) == TWO32
  {
    assert Power2(8) == 256;
    assert Power2(16) == 256 * Power2(8);
    assert Power2(24) == 256 * Power2(16);
    assert Power2(32) == 256 * Power2(24);
  }

  function XorBits(n: nat, x: nat, y: nat): (r: nat)
    ensures r < Power2(n)
  {
    if n == 0 then 0 else 2 * XorBits(n - 1, x / 2, y / 2) + (x % 2 + y % 2) % 2
  }

  function AndBits(n: nat, x: nat, y: nat): (r: nat)
    ensures r < Power2(n)
  {
    if n == 0 then 0 else 2 * AndBits(n - 1, x / 2, y / 2) + (x % 2) * (y % 2)
  }

  function Xor(x: word, y: word): word {
    Power2Word();
    XorBits(WORD_BITS, x, y)
  }

  function And(x: word, y: word): word {
    Power2Word();
    AndBits(WORD_BITS, x, y)
  }

  function Not(x: word): word {
    MAX_UINT32 - x
  }

  function Shr(x: word, n: nat): word {
    if n == 0 then x else Shr(x, n - 1) / 2
  }

  /** Right rotation, one bit at a time. */
  function Rotr(x: word, n: nat): word {
    if n == 0 then x else Rotr(x, n - 1) / 2 + Rotr(x, n - 1) % 2 * 0x8000_0000
  }

  // ----- shifts as arithmetic -----

  lemma {:induction false} PowersMultiply(a: nat, b: nat)
    ensures Power2(a) * Power2(b) == Power2(a + b)
  {
    if a > 0 {
      PowersMultiply(a - 1, b);
    }
  }

  lemma NonzeroMultiple(e: int, d: nat)
    ensures e == 0 || e * d >= d || e * d + d <= 0
  {
  }

  lemma DivisionUnique(x: nat, d: nat, q: nat, r: nat)
    requires r < d && x == q * d + r
    ensures x / d == q && x % d == r
  {
    assert (x / d - q) * d == r - x % d;
    NonzeroMultiple(x / d - q, d);
  }

  /** Dividing by `2d` is dividing by `d` and halving. */
  lemma Halved(x: nat, d: nat)
    requires d > 0
    ensures x / (2 * d) == x / d / 2 && x % (2 * d) == x / d % 2 * d + x % d
  {
    var q, r := x / d, x % d;
    assert x == q * d + r;
    assert q * d == q / 2 * (2 * d) + q % 2 * d;
    DivisionUnique(x, 2 * d, q / 2, q % 2 * d + r);
  }

  lemma {:induction false} ShrExact(x: word, n: nat)
    ensures Shr(x, n) == x / Power2(n)
  {
    if n > 0 {
      ShrExact(x, n - 1);
      Halved(x, Power2(n - 1));
    }
  }

  /** One more bit: it leaves the bottom and becomes `top`. */
  lemma RotatedOnce(x: nat, p: nat, unit: nat, top: nat)
    requires p > 0 && p * unit == top
    ensures var r := x / p + x % p * (2 * unit);
            r / 2 + r % 2 * top == x / (2 * p) + x % (2 * p) * unit
  {
    var high, low, bit := x / p, x % p, x / p % 2;
    Halved(x, p);
    var r := high + low * (2 * unit);
    assert r == 2 * (high / 2 + low * unit) + bit;
    assert (bit * p + low) * unit == bit * top + low * unit;
  }

  /** A rotation: the high bits move down, the low `n` bits move to the top. */
  lemma {:induction false} RotrExact(x: word, n: nat)
    requires n <= 32
    ensures Rotr(x, n) == x / Power2(n) + x % Power2(n) * Power2(32 - n)
  {
    if n > 0 {
      RotrExact(x, n - 1);
      PowersMultiply(n - 1, 32 - n);
      Power2Word();
      RotatedOnce(x, Power2(n - 1), Power2(32 - n), 0x8000_0000);
    }
  }

  // ----- FIPS 180-4 -----

  function Ch(x: word, y: word, z: word): word {
    Xor(And(x, y), And(Not(x), z))
  }

  function Maj(x: word, y: word, z: word): word {
    Xor(Xor(And(x, y), And(x, z)), And(y, z))
  }

  function BigSigma0(x: word): word {
    Xor(Xor(Rotr(x, 2), Rotr(x, 13)), Rotr(x, 22))
  }

  function BigSigma1(x: word): word {
    Xor(Xor(Rotr(x, 6), Rotr(x, 11)), Rotr(x, 25))
  }

  function SmallSigma0(x: word): word {
    Xor(Xor(Rotr(x, 7), Rotr(x, 18)), Shr(x, 3))
  }

  function SmallSigma1(x: word): word {
    Xor(Xor(Rotr(x, 17), Rotr(x, 19)), Shr(x, 10))
  }

  /** Eight of the constants of section 4.2.2. */
  function ConstantRow(row: nat): (r: seq<word>)
    ensures |r| == 8
  {
    if row == 0 then [0x428a2f98, 0x71374491, 0xb5c0fbcf, 0xe9b5dba5, 0x3956c25b, 0x59f111f1, 0x923f82a4, 0xab1c5ed5]
    else if row == 1 then [0xd807aa98, 0x12835b01, 0x243185be, 0x550c7dc3, 0x72be5d74, 0x80deb1fe, 0x9bdc06a7, 0xc19bf174]
    else if row == 2 then [0xe49b69c1, 0xefbe4786, 0x0fc19dc6, 0x240ca1cc, 0x2de92c6f, 0x4a7484aa, 0x5cb0a9dc, 0x76f988da]
    else if row == 3 then [0x983e5152, 0xa831c66d, 0xb00327c8, 0xbf597fc7, 0xc6e00bf3, 0xd5a79147, 0x06ca6351, 0x14292967]
    else if row == 4 then [0x27b70a85, 0x2e1b2138, 0x4d2c6dfc, 0x53380d13, 0x650a7354, 0x766a0abb, 0x81c2c92e, 0x92722c85]
    else if row == 5 then [0xa2bfe8a1, 0xa81a664b, 0xc24b8b70, 0xc76c51a3, 0xd192e819, 0xd6990624, 0xf40e3585, 0x106aa070]
    else if row == 6 then [0x19a4c116, 0x1e376c08, 0x2748774c, 0x34b0bcb5, 0x391c0cb3, 0x4ed8aa4a, 0x5b9cca4f, 0x682e6ff3]
    else [0x748f82ee, 0x78a5636f, 0x84c87814, 0x8cc70208, 0x90befffa, 0xa4506ceb, 0xbef9a3f7, 0xc67178f2]
  }

  const K: seq<word> :=
    ConstantRow(0) + ConstantRow(1) + ConstantRow(2) + ConstantRow(3) +
    ConstantRow(4) + ConstantRow(5) + ConstantRow(6) + ConstantRow(7)

  /** The initial hash value of section 5.3.3. */
  const H0: seq<word> := [
    0x6a09e667, 0xbb67ae85, 0x3c6ef372, 0xa54ff53a, 0x510e527f, 0x9b05688c, 0x1f83d9ab, 0x5be0cd19]

  type Block = b: Bytes | |b| == 64 witness seq(64, _ => 0)
  type Hash = h: seq<word> | |h| == 8 witness seq(8, _ => 0)

  function JoinBytes(b0: int, b1: int, b2: int, b3: int): word
    requires 0 <= b0 < 256 && 0 <= b1 < 256 && 0 <= b2 < 256 && 0 <= b3 < 256
  {
    b0 * 0x100_0000 + b1 * 0x1_0000 + b2 * 0x100 + b3
  }

  function BigEndianWord(b: Bytes, i: nat): word
    requires i + 4 <= |b|
  {
    JoinBytes(b[i], b[i + 1], b[i + 2], b[i + 3])
  }

  /** The message schedule of section 6.2.2, step 1: its first `n` words. */
  function Schedule(block: Block, n: nat): (ws: seq<word>)
    requires n <= 64
    ensures |ws| == n
    decreases block, n, 0
  {
    if n == 0 then [] else Schedule(block, n - 1) + [ScheduleWord(block, n - 1)]
  }

  function ScheduleWord(block: Block, t: nat): word
    requires t < 64
    decreases block, t, 1
  {
    var ws := Schedule(block, t);
    if t < 16 then BigEndianWord(block, 4 * t)
    else Add(Add(Add(SmallSigma1(ws[t - 2]), ws[t - 7]), SmallSigma0(ws[t - 15])), ws[t - 16])
  }

  datatype Vars = Vars(a: word, b: word, c: word, d: word, e: word, f: word, g: word, h: word)

  /** The working variables of step 3 after `t` rounds over the schedule `ws`. */
  function Rounds(start: Vars, ks: seq<word>, ws: seq<word>, t: nat): Vars
    requires t <= |ws| == |ks|
    decreases ws, t, 0
  {
    if t == 0 then start else Round(start, ks, ws, t - 1)
  }

  /** Round `t`, applied to what the rounds before it leave. */
  function Round(start: Vars, ks: seq<word>, ws: seq<word>, t: nat): Vars
    requires t < |ws| == |ks|
    decreases ws, t, 1
  {
    var v := Rounds(start, ks, ws, t);
    var t1 := Add(Add(Add(Add(v.h, BigSigma1(v.e)), Ch(v.e, v.f, v.g)), ks[t]), ws[t]);
    var t2 := Add(BigSigma0(v.a), Maj(v.a, v.b, v.c));
    Vars(Add(t1, t2), v.a, v.b, v.c, Add(v.d, t1), v.e, v.f, v.g)
  }

  function Compress(h: Hash, block: Block): Hash {
    var v := Rounds(Vars(h[0], h[1], h[2], h[3], h[4], h[5], h[6], h[7]), K, Schedule(block, 64), 64);
    [Add(h[0], v.a), Add(h[1], v.b), Add(h[2], v.c), Add(h[3], v.d),
     Add(h[4], v.e), Add(h[5], v.f), Add(h[6], v.g), Add(h[7], v.h)]
  }

  /** The hash value after all blocks of `m`. */
  function Absorb(h: Hash, m: Bytes): Hash
    requires |m| % 64 == 0
  {
    if m == [] then h else Compress(Absorb(h, m[..|m| - 64]), m[|m| - 64..])
  }

  function Power256(k: nat): (p: nat)
    ensures p >= 1
  {
    if k == 0 then 1 else 256 * Power256(k - 1)
  }

  function BigEndian64(n: uint64): (r: Bytes)
    ensures |r| == 8
  {
    seq(8, i requires 0 <= i < 8 => n / Power256(7 - i) % 256)
  }

  /** Smallest number of zero bytes that leaves room for the length: `l + 1 + k = 448 mod 512` in bits. */
  function ZeroCount(length: nat): nat {
    (119 - length % 64) % 64
  }

  /** Section 5.1.1. */
  function Pad(m: Bytes): (r: Bytes)
    requires |m| < 0x2000_0000_0000_0000
    ensures |r| % 64 == 0
  {
    m + [0x80] + seq(ZeroCount(|m|), _ => 0) + BigEndian64(8 * |m|)
  }

  function HexNibble(w: nat): byte {
    if w % 16 < 10 then 0x30 + w % 16 else 0x57 + w % 16
  }

  /** A word as eight lower-case hexadecimal digits. */
  function HexWord(w: word): Bytes {
    [HexNibble(w / 0x1000_0000), HexNibble(w / 0x100_0000), HexNibble(w / 0x10_0000), HexNibble(w / 0x1_0000),
     HexNibble(w / 0x1000), HexNibble(w / 0x100), HexNibble(w / 0x10), HexNibble(w)]
  }

  function HexWords(h: seq<word>): Bytes {
    if h == [] then [] else HexWords(h[..|h| - 1]) + HexWord(h[|h| - 1])
  }

  /** The SHA-256 digest of `m`, in hexadecimal. */
  function HexDigest(m: Bytes): Bytes
    requires |m| < 0x2000_0000_0000_0000
  {
    HexWords(Absorb(H0, Pad(m)))
  }
}
