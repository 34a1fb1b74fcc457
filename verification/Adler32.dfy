/**
  * Adler-32 of the vendored zlib: the checksum of sections 2.2 and 8.2 of RFC 1950, the
  * deferred-modulo loops that compute it in 32-bit arithmetic, and the combination formula.
  */
module Adler32 {
  import opened Bytes

  const BASE := 65521
  const NMAX := 5552

  // ----- definition -----

  datatype Sums = Sums(lo: nat, hi: nat)

  /** The two running sums, reduced after every byte. */
  function Fold(start: Sums, data: Bytes): (r: Sums)
    ensures start.lo < BASE && start.hi < BASE ==> r.lo < BASE && r.hi < BASE
  {
    if data == [] then start
    else
      var before := Fold(start, data[..|data| - 1]);
      var lo := (before.lo + data[|data| - 1]) % BASE;
      Sums(lo, (before.hi + lo) % BASE)
  }

  function Pack(s: Sums): (r: uint32)
    requires s.lo < 0x1_0000 && s.hi < 0x1_0000
  {
    s.lo + s.hi * 0x1_0000
  }

  function Low(adler: uint32): nat {
    adler % 0x1_0000
  }

  function High(adler: uint32): nat {
    adler / 0x1_0000
  }

  /** The incoming checksum as two residues. */
  function Residues(adler: uint32): Sums {
    Sums(Low(adler) % BASE, High(adler) % BASE)
  }

  /** The Adler-32 checksum of a byte string. */
  function Checksum(data: Bytes): uint32 {
    Pack(Fold(Sums(1, 0), data))
  }

  // ----- division-free remainders -----

  /** `CHOP`: 65536 leaves 15 modulo 65521. */
  function Chop(a: nat): nat {
    a % 0x1_0000 + (a / 0x1_0000 * 0x10 - a / 0x1_0000)
  }

  function Mod28(a: nat): nat {
    var c := Chop(a);
    if c >= BASE then c - BASE else c
  }

  function Mod32(a: nat): nat {
    Mod28(Chop(a))
  }

  /** `MOD63`: 2^32 leaves 225 modulo 65521. */
  function Mod63(a: nat): nat {
    var high := a / 0x1_0000_0000;
    Mod28(Chop(a % 0x1_0000_0000 + (high * 0x100 - high * 0x20 + high)))
  }

  lemma ChopResidue(a: nat)
    ensures Chop(a) % BASE == a % BASE
  {
    var high := a / 0x1_0000;
    assert a == Chop(a) + high * BASE;
    MultipleVanishes(Chop(a), high);
  }

  lemma MultipleVanishes(a: int, q: int)
    ensures (a + q * BASE) % BASE == a % BASE
  {
  }

  lemma Mod28Exact(a: nat)
    requires a < 0x1000_0000
    ensures Mod28(a) == a % BASE
  {
    ChopResidue(a);
  }

  lemma Mod32Exact(a: nat)
    requires a < 0x1_0000_0000
    ensures Mod32(a) == a % BASE
  {
    ChopResidue(a);
    Mod28Exact(Chop(a));
  }

  lemma Mod63Exact(a: nat)
    requires a < 0x8000_0000_0000_0000
    ensures Mod63(a) == a % BASE
  {
    var high := a / 0x1_0000_0000;
    var folded := a % 0x1_0000_0000 + 225 * high;
    assert a == folded + high * 65551 * BASE;
    MultipleVanishes(folded, high * 65551);
    ChopResidue(folded);
    assert folded < 0x80_0000_0000;
    Mod28Exact(Chop(folded));
  }

  // ----- the block bound -----

  /** 1 + 2 + ... + n. */
  function Triangle(n: nat): nat {
    if n == 0 then 0 else Triangle(n - 1) + n
  }

  lemma {:induction false} TriangleClosed(n: nat)
    ensures 2 * Triangle(n) == n * (n + 1)
  {
    if n > 0 {
      TriangleClosed(n - 1);
      assert n * (n + 1) == (n - 1) * n + 2 * n;
    }
  }

  /** Largest second sum `n` bytes can build up from reduced sums. */
  function BlockBound(n: nat): nat {
    255 * Triangle(n) + (n + 1) * (BASE - 1)
  }

  lemma {:induction false} BlockBoundMonotone(m: nat, n: nat)
    requires m <= n
    ensures BlockBound(m) <= BlockBound(n)
    decreases n - m
  {
    if m < n {
      BlockBoundMonotone(m, n - 1);
    }
  }

  /** 5552 is the largest block length whose sums fit 32 bits. */
  lemma NMaxIsLargest(n: nat)
    ensures BlockBound(n) <= MAX_UINT32 <==> n <= NMAX
  {
    TriangleClosed(NMAX);
    TriangleClosed(NMAX + 1);
    if n <= NMAX {
      BlockBoundMonotone(n, NMAX);
    } else {
      BlockBoundMonotone(NMAX + 1, n);
    }
  }

  /** The sums without any reduction. */
  function RawSums(start: Sums, data: Bytes): Sums {
    if data == [] then start
    else
      var before := RawSums(start, data[..|data| - 1]);
      var lo := before.lo + data[|data| - 1];
      Sums(lo, before.hi + lo)
  }

  /** The bound is met: 255-valued bytes on top of the largest reduced sums reach it exactly. */
  lemma {:induction false} BlockBoundAttained(n: nat)
    ensures RawSums(Sums(BASE - 1, BASE - 1), seq(n, _ => 255)) == Sums(BASE - 1 + 255 * n, BlockBound(n))
  {
    if n > 0 {
      var data: Bytes := seq(n, _ => 255);
      assert data[..n - 1] == seq(n - 1, _ => 255);
      BlockBoundAttained(n - 1);
    }
  }

  // ----- adler32_z -----

  /** Unreduced sums stand for the reduced ones they are congruent to. */
  predicate Represents(adler: nat, sum2: nat, s: Sums) {
    adler % BASE == s.lo && sum2 % BASE == s.hi
  }

  lemma StepRepresents(adler: nat, sum2: nat, start: Sums, data: Bytes, b: byte)
    requires Represents(adler, sum2, Fold(start, data))
    ensures Represents(adler + b, sum2 + (adler + b), Fold(start, data + [b]))
  {
    var next := data + [b];
    assert next[..|next| - 1] == data;
    ResidueAdd(adler, b);
    ResidueAdd(sum2, adler + b);
    ResidueAdd(adler + b, sum2 % BASE);
  }

  lemma ResidueAdd(x: nat, y: nat)
    ensures (x % BASE + y) % BASE == (x + y) % BASE
  {
  }

  /** What the first sum and the second sum can have grown to, `k` bytes after a reduction. */
  predicate Bounded(adler: nat, sum2: nat, k: nat) {
    adler <= 0xFFFF + 255 * k && sum2 <= 0xFFFF * (k + 1) + 255 * Triangle(k)
  }

  lemma {:induction false} BlockFits(k: nat)
    requires k <= NMAX
    ensures 0xFFFF + 255 * k <= MAX_UINT32 && 0xFFFF * (k + 1) + 255 * Triangle(k) <= MAX_UINT32
  {
    TriangleClosed(NMAX);
    BlockBoundMonotone(k, NMAX);
  }

  /** `DO1` repeated: the next `count` bytes of a block that has already seen `k`. */
  method SumBytes(buf: array<byte>, pos: nat, count: nat, adler0: uint32, sum0: uint32, ghost start: Sums, ghost k: nat)
    returns (adler: uint32, sum2: uint32)
    requires pos + count <= buf.Length && k + count <= NMAX
    requires Bounded(adler0, sum0, k) && Represents(adler0, sum0, Fold(start, buf[..pos]))
    ensures Bounded(adler, sum2, k + count) && Represents(adler, sum2, Fold(start, buf[..pos + count]))
  {
    adler, sum2 := adler0, sum0;
    var i := 0;
    while i < count
      invariant 0 <= i <= count
      invariant Bounded(adler, sum2, k + i) && Represents(adler, sum2, Fold(start, buf[..pos + i]))
    {
      BlockFits(k + i + 1);
      StepRepresents(adler, sum2, start, buf[..pos + i], buf[pos + i]);
      assert buf[..pos + i + 1] == buf[..pos + i] + [buf[pos + i]];
      adler := adler + buf[pos + i];
      sum2 := sum2 + adler;
      i := i + 1;
    }
  }

  /** A block of NMAX bytes, sixteen at a time, then one reduction of each sum. */
  method SumBlock(buf: array<byte>, pos: nat, adler0: uint32, sum0: uint32, ghost start: Sums)
    returns (adler: uint32, sum2: uint32)
    requires pos + NMAX <= buf.Length && adler0 <= 0xFFFF && sum0 <= 0xFFFF
    requires Represents(adler0, sum0, Fold(start, buf[..pos]))
    ensures Sums(adler, sum2) == Fold(start, buf[..pos + NMAX]) && adler < BASE && sum2 < BASE
  {
    adler, sum2 := adler0, sum0;
    var n := NMAX / 16;
    var p := pos;
    while n > 0
      invariant 0 <= n <= 347 && p == pos + 16 * (347 - n)
      invariant Bounded(adler, sum2, 16 * (347 - n)) && Represents(adler, sum2, Fold(start, buf[..p]))
    {
      adler, sum2 := SumBytes(buf, p, 16, adler, sum2, start, 16 * (347 - n));
      p := p + 16;
      n := n - 1;
    }
    adler := adler % BASE;
    sum2 := sum2 % BASE;
  }

  /** Fewer than NMAX bytes, sixteen at a time and then singly, then one reduction. */
  method SumRest(buf: array<byte>, pos: nat, rest: nat, adler0: uint32, sum0: uint32, ghost start: Sums)
    returns (adler: uint32, sum2: uint32)
    requires pos + rest <= buf.Length && 0 < rest < NMAX && adler0 <= 0xFFFF && sum0 <= 0xFFFF
    requires Represents(adler0, sum0, Fold(start, buf[..pos]))
    ensures Sums(adler, sum2) == Fold(start, buf[..pos + rest])
  {
    adler, sum2 := adler0, sum0;
    var len, p := rest, pos;
    while len >= 16
      invariant 0 <= len <= rest && p == pos + (rest - len)
      invariant Bounded(adler, sum2, rest - len) && Represents(adler, sum2, Fold(start, buf[..p]))
    {
      adler, sum2 := SumBytes(buf, p, 16, adler, sum2, start, rest - len);
      len := len - 16;
      p := p + 16;
    }
    adler, sum2 := SumBytes(buf, p, len, adler, sum2, start, rest - len);
    adler := adler % BASE;
    sum2 := sum2 % BASE;
  }

  lemma PackParts(lo: nat, hi: nat)
    requires lo < 0x1_0000 && hi < 0x1_0000
    ensures Low(Pack(Sums(lo, hi))) == lo && High(Pack(Sums(lo, hi))) == hi
  {
  }

  /** The one case a single subtraction does not reduce: one byte on top of an unreduced high half. */
  predicate OneByteOverrun(adler: uint32, data: Bytes) {
    |data| == 1 && High(adler) + (Low(adler) + data[0]) % BASE >= 2 * BASE
  }

  /** The `len == 1` branch. */
  method OneByte(adler0: uint32, b: byte) returns (r: uint32)
    ensures r == Pack(Fold(Residues(adler0), [b])) <==> !OneByteOverrun(adler0, [b])
  {
    var sum2: uint32 := High(adler0);
    var adler: uint32 := Low(adler0) + b;
    if adler >= BASE {
      adler := adler - BASE;
    }
    ghost var lo := adler;
    assert lo == (Low(adler0) + b) % BASE;
    sum2 := sum2 + adler;
    ghost var raw := sum2;
    if sum2 >= BASE {
      sum2 := sum2 - BASE;
    }
    r := adler + sum2 * 0x1_0000;
    OneByteExact(adler0, b, lo, raw, sum2);
  }

  lemma OneByteExact(adler: uint32, b: byte, lo: nat, raw: nat, hi: nat)
    requires lo == (Low(adler) + b) % BASE && raw == High(adler) + lo
    requires hi == if raw >= BASE then raw - BASE else raw
    ensures lo + hi * 0x1_0000 == Pack(Fold(Residues(adler), [b])) <==> !OneByteOverrun(adler, [b])
  {
    OneByteLow(adler, b);
    ResidueAdd(High(adler), lo);
    SubtractOnce(raw, hi);
  }

  lemma SubtractOnce(raw: nat, hi: nat)
    requires raw < 3 * BASE && hi == if raw >= BASE then raw - BASE else raw
    ensures hi == raw % BASE <==> raw < 2 * BASE
  {
  }

  lemma OneByteLow(adler: uint32, b: byte)
    ensures Fold(Residues(adler), [b]) ==
            Sums((Low(adler) + b) % BASE, (High(adler) % BASE + (Low(adler) + b) % BASE) % BASE)
  {
    assert [b][..0] == [];
    ResidueAdd(Low(adler), b);
  }

  /** The `len < 16` branch: one conditional subtraction, one small remainder. */
  method Short(buf: array<byte>, len: nat, adler0: uint32) returns (r: uint32)
    requires len < 16 && len <= buf.Length
    ensures r == Pack(Fold(Residues(adler0), buf[..len]))
  {
    assert buf[..0] == [];
    ghost var start := Residues(adler0);
    var adler, sum2 := SumBytes(buf, 0, len, Low(adler0), High(adler0), start, 0);
    ShortReduces(adler, sum2, len);
    if adler >= BASE {
      adler := adler - BASE;
    }
    sum2 := Mod28(sum2);
    assert Sums(adler, sum2) == Fold(start, buf[..len]);
    r := Joined(adler, sum2);
  }

  /** `adler | (sum2 << 16)` of two halves. */
  function Joined(lo: nat, hi: nat): uint32
    requires lo < BASE && hi < BASE
  {
    lo + hi * 0x1_0000
  }

  lemma ShortReduces(adler: nat, sum2: nat, k: nat)
    requires k < 16 && Bounded(adler, sum2, k)
    ensures (if adler >= BASE then adler - BASE else adler) == adler % BASE
    ensures Mod28(sum2) == sum2 % BASE
  {
    SmallTriangle(k);
    SmallBound(k);
    SubtractOnce(adler, if adler >= BASE then adler - BASE else adler);
    Mod28Exact(sum2);
  }

  lemma SmallBound(k: nat)
    requires k < 16
    ensures 0xFFFF * (k + 1) <= 0x10_0000
  {
  }

  lemma SmallTriangle(k: nat)
    requires k < 16
    ensures Triangle(k) <= 120
  {
    TriangleClosed(k);
    assert k * (k + 1) <= 15 * 16;
  }

  lemma ResiduesReduced(adler: uint32, data: Bytes)
    ensures Fold(Residues(adler), data).lo < BASE && Fold(Residues(adler), data).hi < BASE
    ensures Represents(Low(adler), High(adler), Fold(Residues(adler), []))
  {
  }

  /** Blocks of NMAX bytes, then what is left. */
  method Long(buf: array<byte>, len: nat, adler0: uint32) returns (r: uint32)
    requires 16 <= len <= buf.Length
    ensures r == Pack(Fold(Residues(adler0), buf[..len]))
  {
    ghost var start := Residues(adler0);
    var adler: uint32, sum2: uint32 := Low(adler0), High(adler0);
    var pos := 0;
    assert buf[..0] == [];
    ResiduesReduced(adler0, buf[..len]);
    while len - pos >= NMAX
      invariant 0 <= pos <= len && adler <= 0xFFFF && sum2 <= 0xFFFF
      invariant Represents(adler, sum2, Fold(start, buf[..pos]))
      invariant pos > 0 ==> Sums(adler, sum2) == Fold(start, buf[..pos])
    {
      adler, sum2 := SumBlock(buf, pos, adler, sum2, start);
      ReducedRepresents(adler, sum2);
      pos := pos + NMAX;
    }
    if len - pos > 0 {
      adler, sum2 := SumRest(buf, pos, len - pos, adler, sum2, start);
    }
    assert Sums(adler, sum2) == Fold(start, buf[..len]);
    r := Joined(adler, sum2);
  }

  lemma ReducedRepresents(adler: nat, sum2: nat)
    requires adler < BASE && sum2 < BASE
    ensures Represents(adler, sum2, Sums(adler, sum2))
  {
  }

  /**
    * `adler32_z`: from any incoming checksum, over any length, the per-byte definition, except in
    * the one-byte overrun; a missing buffer gives the initial value.
    */
  method Adler32Z(adler0: uint32, buf: array?<byte>, len: nat) returns (r: uint32)
    requires if buf == null then len != 1 else len <= buf.Length
    ensures buf == null ==> r == Checksum([])
    ensures buf != null ==> (r == Pack(Fold(Residues(adler0), buf[..len])) <==> !OneByteOverrun(adler0, buf[..len]))
  {
    if len == 1 {
      r := OneByte(adler0, buf[0]);
      assert buf[..1] == [buf[0]];
      return;
    }
    if buf == null {
      return 1;
    }
    if len < 16 {
      r := Short(buf, len, adler0);
      return;
    }
    r := Long(buf, len, adler0);
  }

  /** The overrun is real: a high half of 65535 and a new low half of 65520. */
  lemma OverrunExample()
    ensures OneByteOverrun(0xFFFF_FFF0, [0])
  {
    assert Low(0xFFFF_FFF0) == 65520 && High(0xFFFF_FFF0) == 65535;
  }

  /** With both halves of the incoming checksum reduced, as every checksum has them, nothing is excepted. */
  lemma ReducedNeverOverruns(adler: uint32, data: Bytes)
    requires High(adler) < BASE
    ensures !OneByteOverrun(adler, data)
  {
  }

  // ----- adler32_combine_ -----

  function Total(data: Bytes): nat {
    if data == [] then 0 else Total(data[..|data| - 1]) + data[|data| - 1]
  }

  /** Sum of the totals of all non-empty prefixes. */
  function PrefixTotals(data: Bytes): nat {
    if data == [] then 0 else PrefixTotals(data[..|data| - 1]) + Total(data)
  }

  lemma FoldStep(lo: nat, hi: nat, b: byte)
    ensures var l := (lo % BASE + b) % BASE;
            l == (lo + b) % BASE && (hi % BASE + l) % BASE == (hi + (lo + b)) % BASE
  {
    ResidueAdd(lo, b);
    ResidueAdd(hi, (lo + b) % BASE);
    ResidueAdd(lo + b, hi);
  }

  lemma TotalsLast(data: Bytes)
    requires data != []
    ensures var front := data[..|data| - 1];
            && Total(data) == Total(front) + data[|data| - 1]
            && |data| + PrefixTotals(data) == |front| + PrefixTotals(front) + (1 + Total(data))
  {
  }

  /** The checksum's halves in closed form. */
  lemma {:induction false} FoldClosed(data: Bytes)
    ensures Fold(Sums(1, 0), data) == Sums((1 + Total(data)) % BASE, (|data| + PrefixTotals(data)) % BASE)
  {
    if data != [] {
      var front, b := data[..|data| - 1], data[|data| - 1];
      FoldClosed(front);
      FoldStep(1 + Total(front), |front| + PrefixTotals(front), b);
      TotalsLast(data);
    }
  }

  lemma {:induction false} TotalConcat(a: Bytes, b: Bytes)
    ensures Total(a + b) == Total(a) + Total(b)
    ensures PrefixTotals(a + b) == PrefixTotals(a) + |b| * Total(a) + PrefixTotals(b)
    decreases |b|
  {
    if b == [] {
      assert a + b == a;
    } else {
      var front := b[..|b| - 1];
      assert (a + b)[..|a + b| - 1] == a + front;
      TotalConcat(a, front);
      assert |b| * Total(a) == |front| * Total(a) + Total(a);
    }
  }

  lemma MulResidue(x: nat, y: nat)
    ensures (x % BASE) * (y % BASE) % BASE == x * y % BASE
  {
    var p, q := x / BASE, y / BASE;
    var r, t := x % BASE, y % BASE;
    assert x == r + p * BASE && y == t + q * BASE;
    var k := r * q + p * t + p * q * BASE;
    assert x * y == r * t + k * BASE by {
      assert (r + p * BASE) * (t + q * BASE) == r * t + r * (q * BASE) + (p * BASE) * t + (p * BASE) * (q * BASE);
    }
    MultipleVanishes(r * t, k);
  }

  /** The second half of the combination, before its last reductions. */
  lemma CombinedResidue(n: nat, t: nat, h1: nat, h2: nat)
    ensures ((n % BASE) * ((1 + t) % BASE) % BASE + h1 % BASE + h2 % BASE + BASE - n % BASE) % BASE ==
            (h1 + n * t + h2) % BASE
  {
    MulResidue(n, 1 + t);
    var product := n * (1 + t);
    var q := product / BASE + h1 / BASE + h2 / BASE - n / BASE - 1;
    var left := product % BASE + h1 % BASE + h2 % BASE + BASE - n % BASE;
    assert product == n + n * t;
    assert h1 + n * t + h2 == left + q * BASE;
    MultipleVanishes(left, q);
  }

  lemma CombinedLow(x: nat, y: nat)
    ensures (x % BASE + y % BASE + BASE - 1) % BASE == (x + y - 1) % BASE
  {
    var left := x % BASE + y % BASE + BASE - 1;
    var q := x / BASE + y / BASE - 1;
    assert x + y - 1 == left + q * BASE;
    MultipleVanishes(left, q);
  }

  lemma ConcatLow(a: Bytes, b: Bytes)
    ensures Fold(Sums(1, 0), a + b).lo == (Fold(Sums(1, 0), a).lo + Fold(Sums(1, 0), b).lo + BASE - 1) % BASE
  {
    CombinedLow(1 + Total(a), 1 + Total(b));
    TotalConcat(a, b);
    FoldClosed(a);
    FoldClosed(b);
    FoldClosed(a + b);
  }

  lemma {:induction false} ConcatHigh(a: Bytes, b: Bytes)
    ensures var x, y, z := Fold(Sums(1, 0), a), Fold(Sums(1, 0), b), Fold(Sums(1, 0), a + b);
            z.hi == ((|b| % BASE) * x.lo % BASE + x.hi + y.hi + BASE - |b| % BASE) % BASE
  {
    var h1, h2 := |a| + PrefixTotals(a), |b| + PrefixTotals(b);
    CombinedResidue(|b|, Total(a), h1, h2);
    assert |a + b| + PrefixTotals(a + b) == h1 + |b| * Total(a) + h2 by {
      TotalConcat(a, b);
    }
    FoldClosed(a);
    FoldClosed(b);
    FoldClosed(a + b);
  }

  /** What the combination must produce for `a` followed by `b`. */
  lemma {:induction false} ConcatSums(a: Bytes, b: Bytes)
    ensures var x, y, z := Fold(Sums(1, 0), a), Fold(Sums(1, 0), b), Fold(Sums(1, 0), a + b);
            && z.lo == (x.lo + y.lo + BASE - 1) % BASE
            && z.hi == ((|b| % BASE) * x.lo % BASE + x.hi + y.hi + BASE - |b| % BASE) % BASE
  {
    ConcatLow(a, b);
    ConcatHigh(a, b);
  }

  /** `low | (high << 16)` in 32 bits, for a low part of at most 17 bits. */
  function OrShifted(low: nat, high: nat): uint32
    requires low < 0x2_0000
  {
    var h := high % 0x1_0000;
    if low < 0x1_0000 then low + h * 0x1_0000
    else low - 0x1_0000 + (if h % 2 == 0 then h + 1 else h) * 0x1_0000
  }

  lemma ProductFits(x: nat, y: nat)
    requires x < BASE && y <= 0xFFFF
    ensures x * y <= MAX_UINT32
  {
    MulMonotone(x, BASE - 1, y);
  }

  lemma MulMonotone(x: nat, z: nat, y: nat)
    requires x <= z
    ensures x * y <= z * y
  {
    assert (z - x) * y >= 0;
  }

  /** The conditional subtractions of the combination, `product` being `rem * sum1` reduced. */
  method CombineSums(adler1: uint32, adler2: uint32, rem: uint32, product: uint32) returns (r: uint32)
    requires rem < BASE && product < BASE
    ensures Low(adler1) < BASE && High(adler1) < BASE && Low(adler2) < BASE && High(adler2) < BASE ==>
              r == Pack(Sums((Low(adler1) + Low(adler2) + BASE - 1) % BASE,
                             (product + High(adler1) + High(adler2) + BASE - rem) % BASE))
  {
    var sum1: uint32 := Low(adler1) + (Low(adler2) + BASE - 1);
    var sum2: uint32 := product + (High(adler1) + High(adler2) + BASE - rem);
    sum1 := SubtractTwice(sum1, BASE, BASE);
    sum2 := SubtractTwice(sum2, 2 * BASE, BASE);
    r := OrShifted(sum1, sum2);
  }

  /** Two conditional subtractions in a row. */
  function SubtractTwice(x: uint32, first: nat, second: nat): (r: uint32)
    requires first == BASE || first == 2 * BASE
    requires second == BASE
    ensures x < first + 2 * BASE ==> r == x % BASE
    ensures x < 0x3_0000 ==> r < 0x2_0000
  {
    var y := if x >= first then x - first else x;
    if y >= second then y - second else y
  }

  /** `adler32_combine_`: the checksum of a concatenation from the checksums of its parts. */
  method Combine(adler1: uint32, adler2: uint32, len2: int) returns (r: uint32)
    requires len2 < 0x8000_0000_0000_0000
    ensures len2 < 0 ==> r == 0xFFFF_FFFF
    ensures forall a: Bytes, b: Bytes ::
              adler1 == Checksum(a) && adler2 == Checksum(b) && len2 == |b| ==> r == Checksum(a + b)
  {
    if len2 < 0 {
      return 0xFFFF_FFFF;
    }
    var rem: uint32 := Remainder(len2);
    var product := ReducedProduct(rem, Low(adler1));
    r := CombineSums(adler1, adler2, rem, product);
    forall a: Bytes, b: Bytes | adler1 == Checksum(a) && adler2 == Checksum(b) && len2 == |b|
      ensures r == Checksum(a + b)
    {
      CombinedChecksum(adler1, adler2, a, b, rem, product);
    }
  }

  lemma ChecksumParts(data: Bytes)
    ensures Sums(Low(Checksum(data)), High(Checksum(data))) == Fold(Sums(1, 0), data)
    ensures Low(Checksum(data)) < BASE && High(Checksum(data)) < BASE
  {
    var s := Fold(Sums(1, 0), data);
    PackParts(s.lo, s.hi);
  }

  lemma CombinedChecksum(adler1: uint32, adler2: uint32, a: Bytes, b: Bytes, rem: nat, product: nat)
    requires adler1 == Checksum(a) && adler2 == Checksum(b)
    requires rem == |b| % BASE && product == rem * Low(adler1) % BASE
    ensures Low(adler1) < BASE && High(adler1) < BASE && Low(adler2) < BASE && High(adler2) < BASE
    ensures Checksum(a + b) ==
            Pack(Sums((Low(adler1) + Low(adler2) + BASE - 1) % BASE,
                      (product + High(adler1) + High(adler2) + BASE - rem) % BASE))
  {
    ChecksumParts(a);
    ChecksumParts(b);
    ConcatSums(a, b);
  }

  /** `MOD63(len2)`. */
  function Remainder(len2: nat): (r: uint32)
    requires len2 < 0x8000_0000_0000_0000
    ensures r == len2 % BASE
  {
    Mod63Exact(len2);
    Mod63(len2)
  }

  /** `sum2 = rem * sum1; MOD(sum2)`, the product still within 32 bits. */
  function ReducedProduct(rem: uint32, sum1: uint32): (r: uint32)
    requires rem < BASE && sum1 <= 0xFFFF
    ensures r == (rem as int) * sum1 % BASE
  {
    ProductFits(rem, sum1);
    var product: uint32 := (rem as int) * sum1;
    product % BASE
  }
}
