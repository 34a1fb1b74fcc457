/** Byte strings, machine-width integers and the order `std::string` keys are kept in. */
module Bytes {

  type byte = x: int | 0 <= x < 0x100
  type Bytes = seq<byte>

  const MAX_UINT32 := 0xFFFF_FFFF
  const MAX_UINT64 := 0xFFFF_FFFF_FFFF_FFFF

  type uint32 = x: int | 0 <= x <= 0xFFFF_FFFF
  type uint64 = x: int | 0 <= x <= 0xFFFF_FFFF_FFFF_FFFF
  // `std::size_t` on the 64-bit targets.
  type size_t = uint64

  /** `s` occurs in `text` at offset `pos`. */
  predicate At(text: Bytes, pos: nat, s: Bytes) {
    pos + |s| <= |text| && Matches(text, pos, s, 0)
  }

  /** Compared byte by byte, so that a proof sees one byte at a time. */
  predicate Matches(text: Bytes, pos: nat, s: Bytes, k: nat)
    requires pos + |s| <= |text| && k <= |s|
    decreases |s| - k
  {
    k == |s| || (text[pos + k] == s[k] && Matches(text, pos, s, k + 1))
  }

  lemma {:induction false} MatchesAll(text: Bytes, pos: nat, s: Bytes, k: nat)
    requires pos + |s| <= |text| && k <= |s|
    ensures Matches(text, pos, s, k) <==> forall i :: k <= i < |s| ==> text[pos + i] == s[i]
    decreases |s| - k
  {
    if k < |s| {
      MatchesAll(text, pos, s, k + 1);
    }
  }

  lemma AtAll(text: Bytes, pos: nat, s: Bytes)
    ensures At(text, pos, s) <==> pos + |s| <= |text| && forall i :: 0 <= i < |s| ==> text[pos + i] == s[i]
  {
    if pos + |s| <= |text| {
      MatchesAll(text, pos, s, 0);
    }
  }

  lemma AtWhole(text: Bytes)
    ensures At(text, 0, text)
  {
    AtAll(text, 0, text);
  }

  lemma AtConcat(text: Bytes, pos: nat, a: Bytes, b: Bytes)
    requires At(text, pos, a + b)
    ensures At(text, pos, a)
    ensures At(text, pos + |a|, b)
  {
    AtAll(text, pos, a + b);
    AtAll(text, pos, a);
    AtAll(text, pos + |a|, b);
    forall k | 0 <= k < |a| ensures text[pos + k] == a[k] {
      assert (a + b)[k] == a[k];
    }
    forall k | 0 <= k < |b| ensures text[pos + |a| + k] == b[k] {
      assert (a + b)[|a| + k] == b[k];
    }
  }

  lemma AtByte(text: Bytes, pos: nat, s: Bytes, i: nat)
    requires At(text, pos, s)
    requires i < |s|
    ensures text[pos + i] == s[i]
  {
    AtAll(text, pos, s);
  }

  lemma AtSlice(text: Bytes, pos: nat, s: Bytes)
    requires pos + |s| <= |text|
    ensures At(text, pos, s) <==> text[pos..pos + |s|] == s
  {
    AtAll(text, pos, s);
    if text[pos..pos + |s|] == s {
      forall k | 0 <= k < |s| ensures text[pos + k] == s[k] {
        assert text[pos..pos + |s|][k] == s[k];
      }
    }
  }

  lemma AtPrefix(text: Bytes, pos: nat, s: Bytes)
    requires pos <= |text|
    ensures At(text, pos, s) <==> s <= text[pos..]
  {
    if pos + |s| <= |text| {
      AtSlice(text, pos, s);
      assert text[pos..][..|s|] == text[pos..pos + |s|];
    }
  }

  /** The strict order of `std::less<std::string>`: bytes compared as unsigned. */
  predicate Less(a: Bytes, b: Bytes) {
    if |b| == 0 then false
    else if |a| == 0 then true
    else a[0] < b[0] || (a[0] == b[0] && Less(a[1..], b[1..]))
  }

  /** `a` and `b` agree up to `k`, and there `a` ends or has the smaller byte. */
  predicate LessAt(a: Bytes, b: Bytes, k: nat) {
    k <= |a| && k < |b| && (forall i :: 0 <= i < k ==> a[i] == b[i]) && (k == |a| || a[k] < b[k])
  }

  /** The first byte at which two strings differ decides; a proper prefix comes first. */
  lemma {:induction false} LessExact(a: Bytes, b: Bytes)
    ensures Less(a, b) <==> exists k: nat :: LessAt(a, b, k)
  {
    if |a| > 0 && |b| > 0 && a[0] == b[0] {
      LessExact(a[1..], b[1..]);
      if Less(a, b) {
        var k: nat :| LessAt(a[1..], b[1..], k);
        assert forall i :: 0 < i <= k ==> a[i] == a[1..][i - 1] && b[i] == b[1..][i - 1];
        assert LessAt(a, b, k + 1);
      }
      if k: nat :| LessAt(a, b, k) {
        assert k > 0 && LessAt(a[1..], b[1..], k - 1);
      }
    } else if Less(a, b) {
      assert LessAt(a, b, 0);
    }
  }

  lemma {:induction false} LessTransitive(a: Bytes, b: Bytes, c: Bytes)
    requires Less(a, b) && Less(b, c)
    ensures Less(a, c)
  {
    if |a| != 0 && a[0] == b[0] && b[0] == c[0] {
      LessTransitive(a[1..], b[1..], c[1..]);
    }
  }

  lemma {:induction false} LessTotal(a: Bytes, b: Bytes)
    ensures Less(a, b) || a == b || Less(b, a)
    ensures !(Less(a, b) && Less(b, a))
    ensures !Less(a, a)
  {
    if |a| != 0 {
      LessTotal(a[1..], a[1..]);
    }
    if |a| != 0 && |b| != 0 && a[0] == b[0] {
      LessTotal(a[1..], b[1..]);
      assert a == [a[0]] + a[1..] && b == [b[0]] + b[1..];
    }
  }
}
