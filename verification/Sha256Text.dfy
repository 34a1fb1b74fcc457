/** The two number notations of a digest: the length field of section 5.1.1 of FIPS 180-4 and hexadecimal text. */
module Sha256Text {
  import opened Bytes
  import opened Sha256

  /** What a string of digits stands for, most significant first. */
  function Positional(digits: seq<nat>, base: nat): nat {
    if digits == [] then 0 else Positional(digits[..|digits| - 1], base) * base + digits[|digits| - 1]
  }

  /** Numbers each of which is the one before with a digit more. */
  lemma {:induction false} LeadingDigits(digits: seq<nat>, prefixes: seq<nat>, base: nat, k: nat)
    requires k < |digits| == |prefixes| && prefixes[0] == digits[0]
    requires forall i :: 0 <= i < |digits| - 1 ==> prefixes[i + 1] == prefixes[i] * base + digits[i + 1]
    ensures Positional(digits[..k + 1], base) == prefixes[k]
  {
    assert digits[..k + 1][..k] == digits[..k] && digits[..k + 1][k] == digits[k];
    if k > 0 {
      LeadingDigits(digits, prefixes, base, k - 1);
      assert prefixes[k - 1 + 1] == prefixes[k - 1] * base + digits[k - 1 + 1];
    }
  }

  lemma EightDigits(a: nat, b: nat, c: nat, d: nat, e: nat, f: nat, g: nat, h: nat, digits: seq<nat>, base: nat)
    requires |digits| == 8 && a == digits[0] && b == a * base + digits[1] && c == b * base + digits[2] && d == c * base + digits[3]
    requires e == d * base + digits[4] && f == e * base + digits[5] && g == f * base + digits[6] && h == g * base + digits[7]
    ensures Positional(digits, base) == h
  {
    LeadingDigits(digits, [a, b, c, d, e, f, g, h], base, 7);
    assert digits[..8] == digits;
  }

  // ----- the length field -----

  lemma BytesNested(n: uint64)
    ensures n / 0x100 / 256 == n / 0x1_0000
    ensures n / 0x1_0000 / 256 == n / 0x100_0000
    ensures n / 0x100_0000 / 256 == n / 0x1_0000_0000
    ensures n / 0x1_0000_0000 / 256 == n / 0x100_0000_0000
    ensures n / 0x100_0000_0000 / 256 == n / 0x1_0000_0000_0000
    ensures n / 0x1_0000_0000_0000 / 256 == n / 0x100_0000_0000_0000
    ensures n / 0x100_0000_0000_0000 < 256
  {
  }

  lemma LastByte(x: nat)
    ensures x == x / 256 * 256 + x % 256
  {
  }

  lemma BytesSplit(n: uint64)
    ensures n / 0x100_0000_0000_0000 == n / 0x100_0000_0000_0000 % 256
    ensures n / 0x1_0000_0000_0000 == n / 0x100_0000_0000_0000 * 256 + n / 0x1_0000_0000_0000 % 256
    ensures n / 0x100_0000_0000 == n / 0x1_0000_0000_0000 * 256 + n / 0x100_0000_0000 % 256
    ensures n / 0x1_0000_0000 == n / 0x100_0000_0000 * 256 + n / 0x1_0000_0000 % 256
    ensures n / 0x100_0000 == n / 0x1_0000_0000 * 256 + n / 0x100_0000 % 256
    ensures n / 0x1_0000 == n / 0x100_0000 * 256 + n / 0x1_0000 % 256
    ensures n / 0x100 == n / 0x1_0000 * 256 + n / 0x100 % 256
    ensures n == n / 0x100 * 256 + n % 256
  {
    BytesNested(n);
    LastByte(n / 0x100_0000_0000_0000);
    LastByte(n / 0x1_0000_0000_0000);
    LastByte(n / 0x100_0000_0000);
    LastByte(n / 0x1_0000_0000);
    LastByte(n / 0x100_0000);
    LastByte(n / 0x1_0000);
    LastByte(n / 0x100);
    LastByte(n);
  }

  lemma BytePowers()
    ensures Power256(0) == 1 && Power256(1) == 0x100 && Power256(2) == 0x1_0000 && Power256(3) == 0x100_0000
    ensures Power256(4) == 0x1_0000_0000 && Power256(5) == 0x100_0000_0000
    ensures Power256(6) == 0x1_0000_0000_0000 && Power256(7) == 0x100_0000_0000_0000
  {
  }

  function LengthDigits(n: uint64): seq<nat> {
    [n / 0x100_0000_0000_0000 % 256, n / 0x1_0000_0000_0000 % 256, n / 0x100_0000_0000 % 256, n / 0x1_0000_0000 % 256,
     n / 0x100_0000 % 256, n / 0x1_0000 % 256, n / 0x100 % 256, n % 256]
  }

  lemma LengthBytes(n: uint64)
    ensures BigEndian64(n) == LengthDigits(n)
  {
    BytePowers();
  }

  lemma LengthReads(n: uint64)
    ensures Positional(LengthDigits(n), 256) == n
  {
    BytesSplit(n);
    EightDigits(n / 0x100_0000_0000_0000, n / 0x1_0000_0000_0000, n / 0x100_0000_0000, n / 0x1_0000_0000,
                n / 0x100_0000, n / 0x1_0000, n / 0x100, n, LengthDigits(n), 256);
  }

  /** The length field stands for the bit length; the zero bytes before it are the fewest that fill the block. */
  lemma PaddingReads(m: Bytes)
    requires |m| < 0x2000_0000_0000_0000
    ensures var zeros := |Pad(m)| - |m| - 9;
            && 0 <= zeros < 64 && |Pad(m)| % 64 == 0 && m <= Pad(m) && Pad(m)[|m|] == 0x80
            && (forall i :: |m| < i <= |m| + zeros ==> Pad(m)[i] == 0)
            && Positional(Pad(m)[|m| + 1 + zeros..], 256) == 8 * |m|
  {
    LengthBytes(8 * |m|);
    LengthReads(8 * |m|);
    assert Pad(m)[|m| + 1 + ZeroCount(|m|)..] == BigEndian64(8 * |m|);
  }

  /** A word of a block is its four bytes, most significant first. */
  lemma WordReads(b: Bytes, i: nat)
    requires i + 4 <= |b|
    ensures BigEndianWord(b, i) == Positional(b[i..i + 4], 256)
  {
    var s: seq<nat> := b[i..i + 4];
    var two := s[0] * 256 + s[1];
    LeadingDigits(s, [s[0], two, two * 256 + s[2], (two * 256 + s[2]) * 256 + s[3]], 256, 3);
    assert s[..4] == s;
  }

  // ----- hexadecimal -----

  lemma Alphabet(w: nat)
    ensures HexNibble(w) == "0123456789abcdef"[w % 16] as int
  {
  }

  lemma NibblesNested(w: word)
    ensures w / 0x10 / 16 == w / 0x100
    ensures w / 0x100 / 16 == w / 0x1000
    ensures w / 0x1000 / 16 == w / 0x1_0000
    ensures w / 0x1_0000 / 16 == w / 0x10_0000
    ensures w / 0x10_0000 / 16 == w / 0x100_0000
    ensures w / 0x100_0000 / 16 == w / 0x1000_0000
    ensures w / 0x1000_0000 < 16
  {
  }

  lemma LastNibble(x: nat)
    ensures x == x / 16 * 16 + x % 16
  {
  }

  lemma NibblesSplit(w: word)
    ensures w / 0x1000_0000 == w / 0x1000_0000 % 16
    ensures w / 0x100_0000 == w / 0x1000_0000 * 16 + w / 0x100_0000 % 16
    ensures w / 0x10_0000 == w / 0x100_0000 * 16 + w / 0x10_0000 % 16
    ensures w / 0x1_0000 == w / 0x10_0000 * 16 + w / 0x1_0000 % 16
    ensures w / 0x1000 == w / 0x1_0000 * 16 + w / 0x1000 % 16
    ensures w / 0x100 == w / 0x1000 * 16 + w / 0x100 % 16
    ensures w / 0x10 == w / 0x100 * 16 + w / 0x10 % 16
    ensures w == w / 0x10 * 16 + w % 16
  {
    NibblesNested(w);
    LastNibble(w / 0x1000_0000);
    LastNibble(w / 0x100_0000);
    LastNibble(w / 0x10_0000);
    LastNibble(w / 0x1_0000);
    LastNibble(w / 0x1000);
    LastNibble(w / 0x100);
    LastNibble(w / 0x10);
    LastNibble(w);
  }

  function HexDigits(w: word): seq<nat> {
    [w / 0x1000_0000 % 16, w / 0x100_0000 % 16, w / 0x10_0000 % 16, w / 0x1_0000 % 16,
     w / 0x1000 % 16, w / 0x100 % 16, w / 0x10 % 16, w % 16]
  }

  lemma DigitsRead(w: word)
    ensures Positional(HexDigits(w), 16) == w
  {
    NibblesSplit(w);
    EightDigits(w / 0x1000_0000, w / 0x100_0000, w / 0x10_0000, w / 0x1_0000, w / 0x1000, w / 0x100, w / 0x10, w,
                HexDigits(w), 16);
  }

  /** Eight lower-case hexadecimal digits that stand for the word. */
  lemma HexReads(w: word) returns (digits: seq<nat>)
    ensures |digits| == |HexWord(w)| == 8 && Positional(digits, 16) == w
    ensures forall i :: 0 <= i < 8 ==> digits[i] < 16 && HexWord(w)[i] == "0123456789abcdef"[digits[i]] as int
  {
    digits := HexDigits(w);
    DigitsRead(w);
    Alphabet(w / 0x1000_0000);
    Alphabet(w / 0x100_0000);
    Alphabet(w / 0x10_0000);
    Alphabet(w / 0x1_0000);
    Alphabet(w / 0x1000);
    Alphabet(w / 0x100);
    Alphabet(w / 0x10);
    Alphabet(w);
  }

  /** A digest is its words in order, eight digits each. */
  lemma {:induction false} WordsInOrder(h: seq<word>, k: nat)
    requires k < |h|
    ensures |HexWords(h)| == 8 * |h| && HexWords(h)[8 * k..8 * k + 8] == HexWord(h[k])
  {
    var front := h[..|h| - 1];
    if front == [] {
      assert HexWords(h) == HexWord(h[0]);
    } else {
      WordsInOrder(front, if k < |front| then k else 0);
    }
  }
}
