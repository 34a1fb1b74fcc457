/**
  * UTF-8 as the runtime produces it (`append_utf8`) and checks it (`valid_utf8`).
  * The shifts and masks of the source select disjoint bit fields; they are written
  * here as division, remainder and addition.
  */
module Utf8 {
  import opened Bytes
  import opened Sequences

  /** A Unicode scalar value: a code point that is not a surrogate. */
  predicate IsScalar(cp: int) {
    0 <= cp < 0xD800 || 0xE000 <= cp <= 0x10FFFF
  }

  /** The bytes `append_utf8` pushes for one code point. */
  function Encode(cp: nat): (r: Bytes)
    requires cp <= 0x10FFFF
    ensures 1 <= |r| <= 4
  {
    if cp <= 0x7F then [cp]
    else if cp <= 0x7FF then [0xC0 + cp / 0x40, 0x80 + cp % 0x40]
    else if cp <= 0xFFFF then [0xE0 + cp / 0x1000, 0x80 + cp / 0x40 % 0x40, 0x80 + cp % 0x40]
    else [0xF0 + cp / 0x40000, 0x80 + cp / 0x1000 % 0x40, 0x80 + cp / 0x40 % 0x40, 0x80 + cp % 0x40]
  }

  /** Section 4 of RFC 3629: nothing, or one encoded scalar value followed by UTF-8. */
  ghost predicate IsUtf8(s: Bytes)
    decreases |s|, 1
  {
    s == [] || StartsEncoded(s)
  }

  ghost predicate StartsEncoded(s: Bytes)
    requires s != []
    decreases |s|, 0
  {
    exists cp: nat :: Leads(cp, s) && IsUtf8(s[|Encode(cp)|..])
  }

  predicate Leads(cp: nat, s: Bytes) {
    IsScalar(cp) && Encode(cp) <= s
  }

  lemma Led(cp: nat, s: Bytes)
    requires Leads(cp, s) && IsUtf8(s[|Encode(cp)|..])
    ensures s != [] && IsUtf8(s)
  {
    assert StartsEncoded(s);
  }

  lemma LedBy(cp: nat, e: Bytes, s: Bytes)
    requires IsScalar(cp) && e == Encode(cp) && |e| <= |s| && s[..|e|] == e && IsUtf8(s[|e|..])
    ensures IsUtf8(s)
  {
    Led(cp, s);
  }

  lemma Lead(s: Bytes) returns (cp: nat)
    requires s != [] && IsUtf8(s)
    ensures Leads(cp, s) && IsUtf8(s[|Encode(cp)|..])
  {
    assert StartsEncoded(s);
    cp :| Leads(cp, s) && IsUtf8(s[|Encode(cp)|..]);
  }

  predicate Continuation(b: byte) {
    0x80 <= b < 0xC0
  }

  // ----- one encoded scalar -----

  /** Length announced by a lead byte of a multi-byte sequence; 0 for a byte that cannot lead one. */
  function Trailing(first: byte): nat {
    if 0xC2 <= first <= 0xDF then 1
    else if 0xE0 <= first <= 0xEF then 2
    else if 0xF0 <= first <= 0xF4 then 3
    else 0
  }

  function LeadBits(first: byte): nat {
    if 0xC2 <= first <= 0xDF then first % 0x20
    else if 0xE0 <= first <= 0xEF then first % 0x10
    else first % 0x08
  }

  /** The code point accumulated after `n` continuation bytes. */
  function Accumulate(s: Bytes, i: nat, n: nat): (cp: nat)
    requires i + n < |s|
  {
    if n == 0 then LeadBits(s[i]) else Accumulate(s, i, n - 1) * 0x40 + s[i + n] % 0x40
  }

  predicate AllContinuations(s: Bytes, lo: nat, hi: nat)
    requires hi <= |s|
  {
    forall k :: lo <= k < hi ==> Continuation(s[k])
  }

  /** Number of bytes of the well-formed sequence at `i`; 0 when there is none. */
  function UnitLength(s: Bytes, i: nat): (n: nat)
    requires i < |s|
    ensures i + n <= |s|
  {
    if s[i] <= 0x7F then 1
    else
      var t := Trailing(s[i]);
      if t == 0 || t > |s| - i - 1 || !AllContinuations(s, i + 1, i + 1 + t) then 0
      else
        var cp := Accumulate(s, i, t);
        if (t == 2 && cp < 0x800) || (t == 3 && cp < 0x10000) || cp > 0x10FFFF || 0xD800 <= cp <= 0xDFFF
        then 0 else t + 1
  }

  lemma EncodeShape(cp: nat)
    requires IsScalar(cp)
    ensures !Continuation(Encode(cp)[0])
    ensures AllContinuations(Encode(cp), 1, |Encode(cp)|)
    ensures cp > 0x7F ==> Trailing(Encode(cp)[0]) == |Encode(cp)| - 1
  {
  }

  // Splitting a code point into six-bit fields and joining them again.

  lemma Digits2(cp: nat)
    ensures cp / 0x40 * 0x40 + cp % 0x40 == cp
  {
  }

  lemma Digits3(cp: nat)
    ensures (cp / 0x1000 * 0x40 + cp / 0x40 % 0x40) * 0x40 + cp % 0x40 == cp
  {
    assert cp / 0x1000 == cp / 0x40 / 0x40;
    Digits2(cp / 0x40);
  }

  lemma Digits4(cp: nat)
    ensures ((cp / 0x40000 * 0x40 + cp / 0x1000 % 0x40) * 0x40 + cp / 0x40 % 0x40) * 0x40 + cp % 0x40 == cp
  {
    assert cp / 0x40000 == cp / 0x1000 / 0x40;
    Digits2(cp / 0x1000);
    Digits3(cp);
  }

  /** The bits a byte carries behind its mark. */
  function Payload(b: byte, mark: byte): int {
    b as int - mark as int
  }

  /** The table of section 3 of RFC 3629: the marks of an encoding's bytes, and the code point their payloads make up. */
  lemma EncodeBits(cp: nat)
    requires cp <= 0x10FFFF
    ensures var e := Encode(cp);
            if cp < 0x80 then e == [cp]
            else if cp < 0x800 then
              |e| == 2 && 0 <= Payload(e[0], 0xC0) < 0x20 && cp == Payload(e[0], 0xC0) * 0x40 + Payload(e[1], 0x80)
            else if cp < 0x10000 then
              |e| == 3 && 0 <= Payload(e[0], 0xE0) < 0x10 &&
              cp == (Payload(e[0], 0xE0) * 0x40 + Payload(e[1], 0x80)) * 0x40 + Payload(e[2], 0x80)
            else
              |e| == 4 && 0 <= Payload(e[0], 0xF0) < 0x08 &&
              cp == ((Payload(e[0], 0xF0) * 0x40 + Payload(e[1], 0x80)) * 0x40 + Payload(e[2], 0x80)) * 0x40 + Payload(e[3], 0x80)
    ensures forall k :: 1 <= k < |Encode(cp)| ==> 0 <= Payload(Encode(cp)[k], 0x80) < 0x40
  {
    Digits2(cp);
    Digits3(cp);
    Digits4(cp);
  }

  lemma Joined(high: nat, low: nat)
    requires low < 0x40
    ensures (high * 0x40 + low) / 0x40 == high && (high * 0x40 + low) % 0x40 == low
  {
  }

  lemma AccumulateStep(s: Bytes, i: nat, n: nat, field: nat)
    requires 0 < n && i + n < |s| && field < 0x40 && s[i + n] == 0x80 + field
    ensures Accumulate(s, i, n) == Accumulate(s, i, n - 1) * 0x40 + field
  {
  }

  lemma LeadBitsOf(cp: nat)
    requires 0x7F < cp <= 0x10FFFF
    ensures LeadBits(Encode(cp)[0]) ==
            if cp <= 0x7FF then cp / 0x40 else if cp <= 0xFFFF then cp / 0x1000 else cp / 0x40000
  {
    var first := Encode(cp)[0];
    if cp <= 0x7FF {
      assert cp / 0x40 < 0x20;
    } else if cp <= 0xFFFF {
      assert cp / 0x1000 < 0x10;
    } else {
      assert cp / 0x40000 < 0x08;
    }
  }

  lemma AccumulateEncoded(s: Bytes, i: nat, cp: nat)
    requires IsScalar(cp) && cp > 0x7F
    requires At(s, i, Encode(cp))
    ensures Accumulate(s, i, |Encode(cp)| - 1) == cp
  {
    LeadBitsOf(cp);
    AtByte(s, i, Encode(cp), 0);
    AtByte(s, i, Encode(cp), 1);
    if cp <= 0x7FF {
      AccumulateStep(s, i, 1, cp % 0x40);
      Digits2(cp);
    } else if cp <= 0xFFFF {
      AtByte(s, i, Encode(cp), 2);
      AccumulateStep(s, i, 1, cp / 0x40 % 0x40);
      AccumulateStep(s, i, 2, cp % 0x40);
      Digits3(cp);
    } else {
      AtByte(s, i, Encode(cp), 2);
      AtByte(s, i, Encode(cp), 3);
      AccumulateStep(s, i, 1, cp / 0x1000 % 0x40);
      AccumulateStep(s, i, 2, cp / 0x40 % 0x40);
      AccumulateStep(s, i, 3, cp % 0x40);
      Digits4(cp);
    }
  }

  /** An encoded scalar is recognised, with its own length. */
  lemma UnitOfEncoding(s: Bytes, i: nat, cp: nat)
    requires IsScalar(cp)
    requires At(s, i, Encode(cp))
    ensures UnitLength(s, i) == |Encode(cp)|
  {
    var e := Encode(cp);
    EncodeShape(cp);
    forall k | 0 <= k < |e| ensures s[i + k] == e[k] {
      AtByte(s, i, e, k);
    }
    assert s[i + 0] == e[0];
    if cp > 0x7F {
      forall k | i + 1 <= k < i + |e| ensures Continuation(s[k]) {
        assert s[i + (k - i)] == e[k - i];
      }
      AccumulateEncoded(s, i, cp);
    }
  }

  /** Whatever is recognised is the encoding of a scalar. */
  lemma EncodingOfUnit(s: Bytes, i: nat) returns (cp: nat)
    requires i < |s| && UnitLength(s, i) > 0
    ensures IsScalar(cp) && |Encode(cp)| == UnitLength(s, i) && At(s, i, Encode(cp))
  {
    if s[i] <= 0x7F {
      cp := s[i];
      AtAll(s, i, Encode(cp));
    } else {
      var t := Trailing(s[i]);
      cp := Accumulate(s, i, t);
      assert Continuation(s[i + 1]);
      if t == 1 {
        EncodingOfPair(s, i);
      } else if t == 2 {
        assert Continuation(s[i + 2]);
        EncodingOfTriple(s, i);
      } else {
        assert Continuation(s[i + 2]) && Continuation(s[i + 3]);
        EncodingOfQuadruple(s, i);
      }
    }
  }

  lemma LeadBitsOf4(first: byte)
    requires Trailing(first) == 3
    ensures first == 0xF0 + LeadBits(first)
  {
  }

  lemma EncodingOfPair(s: Bytes, i: nat)
    requires i + 1 < |s| && Trailing(s[i]) == 1 && Continuation(s[i + 1])
    ensures var cp := Accumulate(s, i, 1);
            0x80 <= cp <= 0x7FF && At(s, i, Encode(cp))
  {
    var cp := Accumulate(s, i, 1);
    assert cp == Accumulate(s, i, 0) * 0x40 + s[i + 1] % 0x40;
    Joined(LeadBits(s[i]), s[i + 1] % 0x40);
    AtAll(s, i, Encode(cp));
  }

  lemma EncodingOfTriple(s: Bytes, i: nat)
    requires i + 2 < |s| && Trailing(s[i]) == 2 && Continuation(s[i + 1]) && Continuation(s[i + 2])
    requires 0x800 <= Accumulate(s, i, 2)
    ensures var cp := Accumulate(s, i, 2);
            cp <= 0xFFFF && At(s, i, Encode(cp))
  {
    var high := Accumulate(s, i, 1);
    var cp := Accumulate(s, i, 2);
    assert high == Accumulate(s, i, 0) * 0x40 + s[i + 1] % 0x40;
    Joined(LeadBits(s[i]), s[i + 1] % 0x40);
    Joined(high, s[i + 2] % 0x40);
    assert cp / 0x1000 == cp / 0x40 / 0x40;
    AtAll(s, i, Encode(cp));
  }

  lemma EncodedQuadruple(lead: nat, a: nat, b: nat, c: nat, top: nat, high: nat, cp: nat)
    requires a < 0x40 && b < 0x40 && c < 0x40 && top == lead * 0x40 + a && high == top * 0x40 + b && cp == high * 0x40 + c
    requires 0x10000 <= cp <= 0x10FFFF
    ensures Encode(cp) == [0xF0 + lead, 0x80 + a, 0x80 + b, 0x80 + c]
  {
    Joined(lead, a);
    Joined(top, b);
    Joined(high, c);
    assert cp / 0x1000 == cp / 0x40 / 0x40;
    assert cp / 0x40000 == cp / 0x1000 / 0x40;
  }

  lemma EncodingOfQuadruple(s: Bytes, i: nat)
    requires i + 3 < |s| && Trailing(s[i]) == 3
    requires Continuation(s[i + 1]) && Continuation(s[i + 2]) && Continuation(s[i + 3])
    requires 0x10000 <= Accumulate(s, i, 3) <= 0x10FFFF
    ensures At(s, i, Encode(Accumulate(s, i, 3)))
  {
    var top := Accumulate(s, i, 1);
    assert top == Accumulate(s, i, 0) * 0x40 + s[i + 1] % 0x40;
    EncodedQuadruple(LeadBits(s[i]), s[i + 1] % 0x40, s[i + 2] % 0x40, s[i + 3] % 0x40, top, Accumulate(s, i, 2), Accumulate(s, i, 3));
    LeadBitsOf4(s[i]);
    AtAll(s, i, Encode(Accumulate(s, i, 3)));
  }

  // ----- whole strings -----

  /** `s` from offset `i` on splits into recognised sequences. */
  predicate ValidFrom(s: Bytes, i: nat)
    requires i <= |s|
    decreases |s| - i
  {
    i == |s| || (UnitLength(s, i) > 0 && ValidFrom(s, i + UnitLength(s, i)))
  }

  lemma {:induction false} ValidIffUtf8From(s: Bytes, i: nat)
    requires i <= |s|
    ensures ValidFrom(s, i) <==> IsUtf8(s[i..])
    decreases |s| - i
  {
    if i < |s| {
      if UnitLength(s, i) > 0 {
        var cp := EncodingOfUnit(s, i);
        ValidIffUtf8Behind(s, i, cp);
        if ValidFrom(s, i) {
          Led(cp, s[i..]);
        }
      }
      if IsUtf8(s[i..]) {
        var cp := Lead(s[i..]);
        ValidIffUtf8Behind(s, i, cp);
      }
    }
  }

  /** Behind the scalar that is encoded at `i`. */
  lemma {:induction false} ValidIffUtf8Behind(s: Bytes, i: nat, cp: nat)
    requires i < |s| && IsScalar(cp) && (At(s, i, Encode(cp)) || Leads(cp, s[i..]))
    ensures Leads(cp, s[i..]) && i + |Encode(cp)| <= |s| && UnitLength(s, i) == |Encode(cp)|
    ensures ValidFrom(s, i) <==> IsUtf8(s[i..][|Encode(cp)|..])
    decreases |s| - i, 0
  {
    AtPrefix(s, i, Encode(cp));
    UnitOfEncoding(s, i, cp);
    var n := |Encode(cp)|;
    assert s[i..][n..] == s[i + n..];
    ValidIffUtf8From(s, i + n);
  }

  /** The recogniser decides exactly RFC 3629 well-formedness. */
  lemma ValidIffUtf8(s: Bytes)
    ensures ValidFrom(s, 0) <==> IsUtf8(s)
  {
    ValidIffUtf8From(s, 0);
    assert s[0..] == s;
  }

  // ----- splitting and joining -----

  /** A recognised sequence has continuation bytes everywhere but in front. */
  lemma UnitInterior(s: Bytes, i: nat, j: nat)
    requires i < j < |s| && j < i + UnitLength(s, i)
    ensures Continuation(s[j])
  {
  }

  /** A byte that is no continuation byte always starts a new sequence, so the text splits there. */
  lemma {:induction false} SplitBefore(s: Bytes, i: nat, j: nat)
    requires i <= j <= |s| && ValidFrom(s, i)
    requires j == |s| || !Continuation(s[j])
    ensures ValidFrom(s, j) && IsUtf8(s[i..j])
    decreases |s| - i
  {
    if i < j {
      var n := UnitLength(s, i);
      if j < i + n {
        UnitInterior(s, i, j);
        assert false;
      }
      SplitBefore(s, i + n, j);
      var cp := EncodingOfUnit(s, i);
      LedSlice(s, i, j, cp);
    }
  }

  lemma LedSlice(s: Bytes, i: nat, j: nat, cp: nat)
    requires IsScalar(cp) && At(s, i, Encode(cp)) && i + |Encode(cp)| <= j <= |s|
    requires IsUtf8(s[i + |Encode(cp)|..j])
    ensures IsUtf8(s[i..j])
  {
    var e := Encode(cp);
    AtSlice(s, i, e);
    assert s[i..j][..|e|] == e && s[i..j][|e|..] == s[i + |e|..j];
    Led(cp, s[i..j]);
  }

  lemma {:induction false} Utf8Concat(a: Bytes, b: Bytes)
    requires IsUtf8(a) && IsUtf8(b)
    ensures IsUtf8(a + b)
    decreases |a|
  {
    if a == [] {
      assert a + b == b;
    } else {
      var cp := Lead(a);
      var e := Encode(cp);
      DropOfConcat(a, b, |e|);
      Utf8Concat(a[|e|..], b);
      LedBy(cp, e, a + b);
    }
  }

  lemma SplitAround(before: Bytes, e: Bytes, after: Bytes)
    requires IsUtf8(before + e + after)
    requires e != [] && !Continuation(e[0])
    requires UnitLength(before + e + after, |before|) == |e|
    ensures IsUtf8(before) && IsUtf8(after)
  {
    var s := before + e + after;
    var i, j := |before|, |before| + |e|;
    Slices(before, e, after);
    ValidIffUtf8(s);
    SplitBefore(s, 0, i);
    ValidIffUtf8From(s, j);
  }

  lemma Slices(before: Bytes, e: Bytes, after: Bytes)
    requires e != []
    ensures var s := before + e + after;
            s[0..|before|] == before && s[|before| + |e|..] == after && s[|before|] == e[0] && At(s, |before|, e)
  {
    var s := before + e + after;
    assert s[|before|..][..|e|] == e;
    AtPrefix(s, |before|, e);
  }

  lemma OneScalar(cp: nat)
    requires IsScalar(cp)
    ensures IsUtf8(Encode(cp))
  {
    Led(cp, Encode(cp));
  }

  /**
    * A complete encoded scalar dropped between raw bytes, as a `\u` escape is, neither
    * completes nor repairs them: the whole is well formed exactly when both sides already are.
    */
  lemma EscapeCannotRepair(before: Bytes, cp: nat, after: Bytes)
    requires IsScalar(cp)
    ensures IsUtf8(before + Encode(cp) + after) <==> IsUtf8(before) && IsUtf8(after)
  {
    if IsUtf8(before + Encode(cp) + after) {
      EncodeShape(cp);
      Slices(before, Encode(cp), after);
      UnitOfEncoding(before + Encode(cp) + after, |before|, cp);
      SplitAround(before, Encode(cp), after);
    }
    if IsUtf8(before) && IsUtf8(after) {
      OneScalar(cp);
      Utf8Concat(before, Encode(cp));
      Utf8Concat(before + Encode(cp), after);
    }
  }

  /** `valid_utf8`, statement by statement. */
  method ValidUtf8(value: Bytes) returns (valid: bool)
    ensures valid <==> IsUtf8(value)
  {
    ValidIffUtf8(value);
    var index := 0;
    while index < |value|
      invariant 0 <= index <= |value|
      invariant ValidFrom(value, 0) <==> ValidFrom(value, index)
    {
      ghost var start := index;
      var first := value[index];
      index := index + 1;
      if first <= 0x7F {
        continue;
      }
      var codepoint: nat := 0;
      var remaining := 0;
      if first >= 0xC2 && first <= 0xDF {
        codepoint := first % 0x20;
        remaining := 1;
      } else if first >= 0xE0 && first <= 0xEF {
        codepoint := first % 0x10;
        remaining := 2;
      } else if first >= 0xF0 && first <= 0xF4 {
        codepoint := first % 0x08;
        remaining := 3;
      } else {
        return false;
      }
      if remaining > |value| - index {
        return false;
      }
      var count := 0;
      while count < remaining
        invariant 0 <= count <= remaining && index == start + 1 + count
        invariant AllContinuations(value, start + 1, start + 1 + count)
        invariant codepoint == Accumulate(value, start, count)
      {
        var continuation := value[index];
        index := index + 1;
        if continuation < 0x80 || continuation >= 0xC0 {
          assert !Continuation(value[start + 1 + count]);
          return false;
        }
        codepoint := codepoint * 0x40 + continuation % 0x40;
        count := count + 1;
      }
      if (remaining == 2 && codepoint < 0x800) || (remaining == 3 && codepoint < 0x10000) ||
         codepoint > 0x10FFFF || (codepoint >= 0xD800 && codepoint <= 0xDFFF)
      {
        return false;
      }
    }
    return true;
  }
}
