/**
  * What an accepted text guarantees: the value read is ordered and within the limits, and its
  * canonical encoding is no longer than the text it was read from.
  */
module JsonSound {
  import opened Bytes
  import opened Utf8
  import opened Json
  import opened JsonParser
  import opened JsonExact

  // ----- strings -----

  /** Length of the escaped form, quotes excluded. */
  function EscapedLength(s: Bytes): nat {
    if s == [] then 0 else EscapedLength(s[..|s| - 1]) + |EscapedByte(s[|s| - 1])|
  }

  lemma {:induction false} EscapedLengthConcat(a: Bytes, b: Bytes)
    ensures EscapedLength(a + b) == EscapedLength(a) + EscapedLength(b)
    decreases |b|
  {
    if b == [] {
      assert a + b == a;
    } else {
      var front := b[..|b| - 1];
      assert (a + b)[..|a + b| - 1] == a + front;
      EscapedLengthConcat(a, front);
    }
  }

  lemma {:induction false} EscapedFromLength(s: Bytes, i: nat)
    requires i <= |s|
    ensures |EscapedFrom(s, i)| == 1 + EscapedLength(s) - EscapedLength(s[..i])
    decreases |s| - i
  {
    if i == |s| {
      assert s[..i] == s;
    } else {
      EscapedFromLength(s, i + 1);
      assert s[..i + 1][..i] == s[..i];
    }
  }

  lemma QuotedLength(s: Bytes)
    ensures |Quoted(s)| == 2 + EscapedLength(s)
  {
    EscapedFromLength(s, 0);
    assert s[..0] == [];
  }

  lemma EscapedLengthSingle(b: byte)
    ensures EscapedLength([b]) == |EscapedByte(b)|
  {
    assert [b][..0] == [];
  }

  /** Bytes outside ASCII are never escaped. */
  lemma {:induction false} EscapedLengthHigh(s: Bytes)
    requires forall k :: 0 <= k < |s| ==> s[k] >= 0x80
    ensures EscapedLength(s) == |s|
  {
    if s != [] {
      EscapedLengthHigh(s[..|s| - 1]);
    }
  }

  lemma EncodedLength(cp: nat)
    requires cp <= 0x10FFFF
    ensures EscapedLength(Encode(cp)) <= 6
  {
    if cp <= 0x7F {
      EscapedLengthSingle(cp);
    } else {
      EscapedLengthHigh(Encode(cp));
    }
  }

  /** Whatever a turn of the string loop reads, re-escaping what it emits takes no more room. */
  lemma StepShrinks(text: Bytes, pos: nat)
    requires pos < |text| && Step(text, pos).Emit?
    ensures pos + EscapedLength(Step(text, pos).bytes) <= Step(text, pos).next
  {
    if text[pos] == BACKSLASH && text[pos + 1] == 0x75 {
      UnicodeShrinks(text, pos + 2);
    } else {
      EscapedLengthSingle(Step(text, pos).bytes[0]);
    }
  }

  lemma UnicodeShrinks(text: Bytes, pos: nat)
    requires UnicodeStep(text, pos).Emit?
    ensures EscapedLength(UnicodeStep(text, pos).bytes) <= 6
    ensures pos + 4 <= UnicodeStep(text, pos).next
  {
    var code := HexCode(text, pos);
    if 0xD800 <= code <= 0xDBFF {
      EncodedLength(0x10000 + (code - 0xD800) * 0x400 + (HexCode(text, pos + 6) - 0xDC00));
    } else {
      EncodedLength(code);
    }
  }

  lemma {:induction false} StringSound(text: Bytes, lim: ParseLimits, pos: nat, count: nat, done: Bytes)
    requires pos <= |text| && ParseString(text, lim, pos, count, done).Ok?
    ensures var r := ParseString(text, lim, pos, count, done);
            && StringFits(r.value, lim) && r.count == count
            && EscapedLength(r.value) + 1 <= EscapedLength(done) + (r.pos - pos)
    decreases |text| - pos
  {
    match Step(text, pos)
    case Emit(bytes, next) =>
      StringTurn(text, lim, pos, count, done, bytes, next);
      StepShrinks(text, pos);
      EscapedLengthConcat(done, bytes);
      StringSound(text, lim, next, count, done + bytes);
    case Close =>
  }

  // ----- numbers -----

  lemma NumberSound(text: Bytes, pos: nat, count: nat)
    requires pos < |text| && IsDigit(text[pos]) && ParseNumber(text, pos, count).Ok?
    ensures var r := ParseNumber(text, pos, count);
            r.value.Unsigned? && r.count == count && |Canonical(r.value)| == r.pos - pos
  {
    var end := DigitsEnd(text, pos);
    assert end > pos;
    DecimalUnique(text[pos..end]);
  }

  // ----- arrays -----

  lemma {:induction false} ItemsSound(text: Bytes, lim: ParseLimits, pos: nat, depth: nat, count: nat, done: seq<Value>)
    requires pos <= |text| && ParseItems(text, lim, pos, depth, count, done).Ok?
    ensures var r := ParseItems(text, lim, pos, depth, count, done);
            && r.value.Array? && done < r.value.items
            && OrderedItems(r.value.items, |done|)
            && AdmissibleItems(r.value.items, |done|, lim, lim.maxDepth - depth)
            && r.count == count + CountItems(r.value.items, |done|) <= lim.maxValues
            && |ItemsFrom(r.value.items, |done|)| <= (r.pos - pos) + |Separator(|done|)|
    decreases |text| - pos, 3
  {
    ValueSound(text, lim, pos, depth, count);
    var first := ParseValue(text, lim, pos, depth, count);
    var q := SkipSpace(text, first.pos);
    var r := ParseItems(text, lim, pos, depth, count, done);
    if text[q] == COMMA {
      assert r == ParseItems(text, lim, q + 1, depth, first.count, done + [first.value]);
      ItemsSound(text, lim, q + 1, depth, first.count, done + [first.value]);
      assert r.value.items[|done|] == (done + [first.value])[|done|] == first.value;
    }
  }

  // ----- objects -----

  /** Total length of the member texts from index `i` on, each with one byte of punctuation. */
  function Weight(members: seq<Member>, i: nat): nat
    requires i <= |members|
    decreases |members| - i
  {
    if i == |members| then 0 else |MemberText(members[i])| + 1 + Weight(members, i + 1)
  }

  lemma {:induction false} MembersLength(members: seq<Member>, i: nat)
    requires i <= |members|
    ensures |MembersFrom(members, i)| == if i == |members| then 1 else |Separator(i)| + Weight(members, i)
    decreases |members| - i
  {
    if i < |members| {
      MembersLength(members, i + 1);
    }
  }

  /** Behind the inserted member everything is as it was, one place further. */
  lemma {:induction false} InsertBehind(ms: seq<Member>, m: Member, s: nat, i: nat, lim: ParseLimits, budget: int)
    requires s <= i <= |ms|
    ensures var ins := ms[..s] + [m] + ms[s..];
            && CountMembers(ins, i + 1) == CountMembers(ms, i) && Weight(ins, i + 1) == Weight(ms, i)
            && OrderedMembers(ins, i + 1) == OrderedMembers(ms, i)
            && AdmissibleMembers(ins, i + 1, lim, budget) == AdmissibleMembers(ms, i, lim, budget)
    decreases |ms| - i
  {
    if i < |ms| {
      InsertBehind(ms, m, s, i + 1, lim, budget);
      assert (ms[..s] + [m] + ms[s..])[i + 1] == ms[i];
    }
  }

  /** From any earlier place on, exactly the inserted member has been added. */
  lemma {:induction false} InsertAdds(ms: seq<Member>, m: Member, s: nat, i: nat, lim: ParseLimits, budget: int)
    requires i <= s <= |ms|
    ensures var ins := ms[..s] + [m] + ms[s..];
            && CountMembers(ins, i) == CountMembers(ms, i) + Count(m.value)
            && Weight(ins, i) == Weight(ms, i) + |MemberText(m)| + 1
            && OrderedMembers(ins, i) == (OrderedMembers(ms, i) && Ordered(m.value))
            && AdmissibleMembers(ins, i, lim, budget) ==
               (AdmissibleMembers(ms, i, lim, budget) && StringFits(m.key, lim) && Admissible(m.value, lim, budget))
    decreases s - i
  {
    var ins := ms[..s] + [m] + ms[s..];
    if i == s {
      InsertBehind(ms, m, s, i, lim, budget);
      assert ins[i] == m;
    } else {
      InsertAdds(ms, m, s, i + 1, lim, budget);
      assert ins[i] == ms[i];
    }
  }

  /** The slot separates the smaller keys from the rest. */
  lemma {:induction false} SlotSplits(ms: seq<Member>, key: Bytes)
    ensures forall k :: 0 <= k < Slot(ms, key) ==> Less(ms[k].key, key)
    ensures Slot(ms, key) < |ms| ==> !Less(ms[Slot(ms, key)].key, key)
  {
    if ms != [] && Less(ms[0].key, key) {
      SlotSplits(ms[1..], key);
      forall k | 0 <= k < Slot(ms, key) ensures Less(ms[k].key, key) {
        if k > 0 {
          assert ms[1..][k - 1] == ms[k];
        }
      }
    }
  }

  lemma {:induction false} AscendingOf(ms: seq<Member>, i: nat)
    requires i <= |ms|
    requires forall k :: 0 < k < |ms| ==> Less(ms[k - 1].key, ms[k].key)
    ensures Ascending(ms, i)
    decreases |ms| - i
  {
    if i < |ms| {
      AscendingOf(ms, i + 1);
    }
  }

  lemma InsertAscending(ms: seq<Member>, m: Member)
    requires Ascending(ms, 0) && !HasKey(ms, m.key)
    ensures Ascending(Insert(ms, m), 0)
  {
    var s := Slot(ms, m.key);
    var ins := Insert(ms, m);
    SlotSplits(ms, m.key);
    HasKeyAt(ms, m.key);
    forall k | 0 < k < |ins| ensures Less(ins[k - 1].key, ins[k].key) {
      if k < s {
        AscendingPair(ms, k - 1, k);
      } else if k == s + 1 {
        LessTotal(m.key, ms[s].key);
      } else if k > s + 1 {
        AscendingPair(ms, k - 2, k - 1);
      }
    }
    AscendingOf(ins, 0);
  }

  lemma KeySound(text: Bytes, lim: ParseLimits, pos: nat, count: nat)
    requires pos <= |text| && ParseKey(text, lim, pos, count).Ok?
    ensures var r := ParseKey(text, lim, pos, count);
            StringFits(r.value, lim) && |Quoted(r.value)| + 1 <= r.pos - pos
  {
    StringSound(text, lim, pos + 1, count, []);
    QuotedLength(ParseKey(text, lim, pos, count).value);
  }

  lemma {:induction false} MemberSound(text: Bytes, lim: ParseLimits, pos: nat, depth: nat, count: nat)
    requires pos <= |text| && ParseMember(text, lim, pos, depth, count).Ok?
    ensures var r := ParseMember(text, lim, pos, depth, count);
            && StringFits(r.value.key, lim) && Ordered(r.value.value) && Fits(r.value.value, lim, depth, count)
            && r.count == count + Count(r.value.value) && |MemberText(r.value)| <= r.pos - pos
    decreases |text| - pos, 3
  {
    var k := SkipSpace(text, pos);
    KeySound(text, lim, k, count);
    ValueSound(text, lim, ParseKey(text, lim, k, count).pos, depth, count);
  }

  /** What holds of the members read from `pos` on, `done` having been read before. */
  ghost predicate MembersHold(r: Parsed<Value>, lim: ParseLimits, pos: nat, depth: nat, count: nat, done: seq<Member>) {
    && r.Ok? && r.value.Object? && r.value.members != []
    && Ascending(r.value.members, 0) && OrderedMembers(r.value.members, 0)
    && AdmissibleMembers(r.value.members, 0, lim, lim.maxDepth - depth)
    && r.count == count + CountMembers(r.value.members, 0) - CountMembers(done, 0) <= lim.maxValues
    && Weight(r.value.members, 0) <= (r.pos - pos) + Weight(done, 0)
  }

  /** One more member, sound by itself. */
  lemma MemberAdded(m: Parsed<Member>, lim: ParseLimits, pos: nat, depth: nat, count: nat, done: seq<Member>)
    requires m.Ok? && !HasKey(done, m.value.key) && Ascending(done, 0) && OrderedMembers(done, 0)
    requires AdmissibleMembers(done, 0, lim, lim.maxDepth - depth)
    requires StringFits(m.value.key, lim) && Ordered(m.value.value) && Fits(m.value.value, lim, depth, count)
    ensures var more := Insert(done, m.value);
            && more != [] && Ascending(more, 0) && OrderedMembers(more, 0) && AdmissibleMembers(more, 0, lim, lim.maxDepth - depth)
            && CountMembers(more, 0) == CountMembers(done, 0) + Count(m.value.value)
            && Weight(more, 0) == Weight(done, 0) + |MemberText(m.value)| + 1
  {
    InsertAdds(done, m.value, Slot(done, m.value.key), 0, lim, lim.maxDepth - depth);
    InsertAscending(done, m.value);
  }

  /** A turn of the member loop: one new member, then the end or more of them. */
  lemma MembersTurn(text: Bytes, lim: ParseLimits, pos: nat, depth: nat, count: nat, done: seq<Member>) returns (q: nat)
    requires pos <= |text| && ParseMembers(text, lim, pos, depth, count, done).Ok?
    ensures var m := ParseMember(text, lim, pos, depth, count);
            var r := ParseMembers(text, lim, pos, depth, count, done);
            && m.Ok? && q == SkipSpace(text, m.pos) < |text| && !HasKey(done, m.value.key)
            && (text[q] == COMMA || text[q] == CLOSE_BRACE)
            && (text[q] == COMMA ==> r == ParseMembers(text, lim, q + 1, depth, m.count, Insert(done, m.value)))
            && (text[q] != COMMA ==> r == Ok(Object(Insert(done, m.value)), q + 1, m.count))
  {
    q := SkipSpace(text, ParseMember(text, lim, pos, depth, count).pos);
  }

  lemma {:induction false} MembersSound(text: Bytes, lim: ParseLimits, pos: nat, depth: nat, count: nat, done: seq<Member>)
    requires pos <= |text| && ParseMembers(text, lim, pos, depth, count, done).Ok?
    requires Ascending(done, 0) && OrderedMembers(done, 0) && AdmissibleMembers(done, 0, lim, lim.maxDepth - depth)
    ensures MembersHold(ParseMembers(text, lim, pos, depth, count, done), lim, pos, depth, count, done)
    decreases |text| - pos, 4
  {
    var q := MembersTurn(text, lim, pos, depth, count, done);
    MemberSound(text, lim, pos, depth, count);
    var m := ParseMember(text, lim, pos, depth, count);
    MemberAdded(m, lim, pos, depth, count, done);
    if text[q] == COMMA {
      MembersSound(text, lim, q + 1, depth, m.count, Insert(done, m.value));
    }
  }

  // ----- values -----

  /** Every value the parser returns is ordered, within the limits, counted exactly and encoded no longer than read. */
  lemma {:induction false} ValueSound(text: Bytes, lim: ParseLimits, pos: nat, depth: nat, count: nat)
    requires pos <= |text| && ParseValue(text, lim, pos, depth, count).Ok?
    ensures var r := ParseValue(text, lim, pos, depth, count);
            && Ordered(r.value) && Fits(r.value, lim, depth, count)
            && r.count == count + Count(r.value) && |Canonical(r.value)| <= r.pos - pos
    decreases |text| - pos, 2
  {
    TokenSound(text, lim, SkipSpace(text, pos), depth, count + 1);
  }

  lemma {:induction false} TokenSound(text: Bytes, lim: ParseLimits, pos: nat, depth: nat, count: nat)
    requires pos < |text| && depth <= lim.maxDepth && 0 < count <= lim.maxValues
    requires ParseToken(text, lim, pos, depth, count).Ok?
    ensures var r := ParseToken(text, lim, pos, depth, count);
            && Ordered(r.value) && Fits(r.value, lim, depth, count - 1)
            && r.count == count - 1 + Count(r.value) && |Canonical(r.value)| <= r.pos - pos
    decreases |text| - pos, 1
  {
    if text[pos] == QUOTE {
      StringTokenSound(text, lim, pos, depth, count);
    } else if text[pos] == OPEN_BRACKET {
      ArrayTokenSound(text, lim, pos, depth, count);
    } else if text[pos] == OPEN_BRACE {
      ObjectTokenSound(text, lim, pos, depth, count);
    } else if IsDigit(text[pos]) {
      NumberSound(text, pos, count);
    }
  }

  lemma StringTokenSound(text: Bytes, lim: ParseLimits, pos: nat, depth: nat, count: nat)
    requires pos < |text| && text[pos] == QUOTE && depth <= lim.maxDepth && 0 < count <= lim.maxValues
    requires ParseToken(text, lim, pos, depth, count).Ok?
    ensures var r := ParseToken(text, lim, pos, depth, count);
            && r.value.String? && Fits(r.value, lim, depth, count - 1)
            && r.count == count && |Canonical(r.value)| <= r.pos - pos
  {
    StringSound(text, lim, pos + 1, count, []);
    QuotedLength(ParseToken(text, lim, pos, depth, count).value.s);
  }

  lemma {:induction false} ArrayTokenSound(text: Bytes, lim: ParseLimits, pos: nat, depth: nat, count: nat)
    requires pos < |text| && text[pos] == OPEN_BRACKET && depth <= lim.maxDepth && 0 < count <= lim.maxValues
    requires ParseToken(text, lim, pos, depth, count).Ok?
    ensures var r := ParseToken(text, lim, pos, depth, count);
            && Ordered(r.value) && Fits(r.value, lim, depth, count - 1)
            && r.count == count - 1 + Count(r.value) && |Canonical(r.value)| <= r.pos - pos
    decreases |text| - pos, 0
  {
    var q := SkipSpace(text, pos + 1);
    if text[q] != CLOSE_BRACKET {
      ItemsSound(text, lim, q, depth + 1, count, []);
    }
  }

  /** What the member loop returns makes an object within the limits. */
  lemma ObjectFromMembers(members: seq<Member>, lim: ParseLimits, depth: nat, count: nat, room: int)
    requires depth <= lim.maxDepth && 0 < count && members != []
    requires Ascending(members, 0) && OrderedMembers(members, 0) && AdmissibleMembers(members, 0, lim, lim.maxDepth - (depth + 1))
    requires count + CountMembers(members, 0) <= lim.maxValues && Weight(members, 0) <= room
    ensures var v := Object(members);
            && Ordered(v) && Fits(v, lim, depth, count - 1) && Count(v) == 1 + CountMembers(members, 0) && |Canonical(v)| <= room + 1
  {
    MembersLength(members, 0);
  }

  lemma {:induction false} ObjectTokenSound(text: Bytes, lim: ParseLimits, pos: nat, depth: nat, count: nat)
    requires pos < |text| && text[pos] == OPEN_BRACE && depth <= lim.maxDepth && 0 < count <= lim.maxValues
    requires ParseToken(text, lim, pos, depth, count).Ok?
    ensures var r := ParseToken(text, lim, pos, depth, count);
            && Ordered(r.value) && Fits(r.value, lim, depth, count - 1)
            && r.count == count - 1 + Count(r.value) && |Canonical(r.value)| <= r.pos - pos
    decreases |text| - pos, 0
  {
    var q := SkipSpace(text, pos + 1);
    if text[q] == CLOSE_BRACE {
      EmptyObjectSound(lim, depth, count);
    } else {
      var r := ParseMembers(text, lim, q, depth + 1, count, []);
      assert ParseToken(text, lim, pos, depth, count) == r;
      MembersSound(text, lim, q, depth + 1, count, []);
      ObjectFromMembers(r.value.members, lim, depth, count, r.pos - q);
    }
  }

  lemma EmptyObjectSound(lim: ParseLimits, depth: nat, count: nat)
    requires depth <= lim.maxDepth && 0 < count <= lim.maxValues
    ensures var v := Object([]);
            Ordered(v) && Fits(v, lim, depth, count - 1) && Count(v) == 1 && |Canonical(v)| == 2
  {
  }
}
