/** Every spelling of a value that stays within the limits is read as that value. */
module JsonReading {
  import opened Bytes
  import opened Sequences
  import opened Utf8
  import opened Json
  import opened JsonParser
  import opened JsonExact
  import opened JsonSound
  import opened JsonSpelling

  // ----- space -----

  lemma BlankIsSpace(b: byte)
    ensures Blank(b) <==> IsSpace(b)
  {
  }

  lemma {:induction false} BlanksSkipped(text: Bytes, i: nat, j: nat)
    requires Blanks(text, i, j)
    ensures SkipSpace(text, i) == SkipSpace(text, j)
    decreases j - i
  {
    if i < j {
      BlanksSkipped(text, i + 1, j);
    }
  }

  lemma {:induction false} SkippedAreBlanks(text: Bytes, i: nat)
    requires i <= |text|
    ensures Blanks(text, i, SkipSpace(text, i))
    decreases |text| - i
  {
    if i < |text| && IsSpace(text[i]) {
      SkippedAreBlanks(text, i + 1);
    }
  }

  /** Space before a value, element list or member list changes nothing. */
  lemma SkipTwice(text: Bytes, i: nat)
    requires i <= |text|
    ensures SkipSpace(text, SkipSpace(text, i)) == SkipSpace(text, i)
  {
  }

  lemma ItemsSkip(text: Bytes, lim: ParseLimits, i: nat, depth: nat, count: nat, done: seq<Value>)
    requires i <= |text|
    ensures ParseItems(text, lim, SkipSpace(text, i), depth, count, done) == ParseItems(text, lim, i, depth, count, done)
  {
    SkipTwice(text, i);
    assert ParseValue(text, lim, SkipSpace(text, i), depth, count) == ParseValue(text, lim, i, depth, count);
  }

  lemma MembersSkip(text: Bytes, lim: ParseLimits, i: nat, depth: nat, count: nat, done: seq<Member>)
    requires i <= |text|
    ensures ParseMembers(text, lim, SkipSpace(text, i), depth, count, done) == ParseMembers(text, lim, i, depth, count, done)
  {
    SkipTwice(text, i);
    assert ParseMember(text, lim, SkipSpace(text, i), depth, count) == ParseMember(text, lim, i, depth, count);
  }

  // ----- strings -----

  lemma DigitRead(b: byte, d: nat)
    ensures DigitFor(b, d) <==> IsHex(b) && HexValue(b) == d
  {
  }

  lemma FourDigits(n: nat, a: nat, b: nat, c: nat, d: nat)
    requires n < 0x10000 && a < 16 && b < 16 && c < 16 && d < 16
    ensures n == ((a * 16 + b) * 16 + c) * 16 + d <==>
            a == n / 0x1000 && b == n / 0x100 % 16 && c == n / 0x10 % 16 && d == n % 16
  {
  }

  /** Four digits are read as the number they denote. */
  lemma UnicodeDigits(text: Bytes, i: nat, n: nat)
    requires i + 6 <= |text| && text[i] == BACKSLASH && text[i + 1] == 0x75
    ensures UnicodeAt(text, i, n) <==> HexAt(text, i + 2) && HexCode(text, i + 2) == n
  {
    DigitRead(text[i + 2], n / 0x1000);
    DigitRead(text[i + 3], n / 0x100 % 16);
    DigitRead(text[i + 4], n / 0x10 % 16);
    DigitRead(text[i + 5], n % 16);
    if HexAt(text, i + 2) && n < 0x10000 {
      FourDigits(n, HexValue(text[i + 2]), HexValue(text[i + 3]), HexValue(text[i + 4]), HexValue(text[i + 5]));
    }
  }

  lemma PairRead(text: Bytes, i: nat, j: nat, cp: nat)
    requires PairAt(text, i, j, cp)
    ensures i + 2 < |text| && UnicodeStep(text, i + 2) == Emit(Encode(cp), j)
  {
    UnicodeDigits(text, i, 0xD800 + (cp - 0x10000) / 0x400);
    UnicodeDigits(text, i + 6, 0xDC00 + (cp - 0x10000) % 0x400);
  }

  /** An escape spells the character that one turn of the string loop emits for it. */
  lemma EscapeRead(text: Bytes, i: nat, j: nat, cp: nat)
    requires CharAt(text, i, j, cp) && !RawAt(text, i, j, cp)
    ensures i < |text| && Step(text, i) == Emit(Encode(cp), j)
  {
    if ShortAt(text, i, j, cp) {
    } else if PairAt(text, i, j, cp) {
      PairRead(text, i, j, cp);
    } else {
      UnicodeDigits(text, i, cp);
    }
  }

  predicate Plain(b: byte) {
    b >= 0x20 && b != QUOTE && b != BACKSLASH
  }

  lemma {:induction false} RawRead(text: Bytes, lim: ParseLimits, i: nat, j: nat, count: nat, done: Bytes)
    requires i <= j <= |text| && forall k :: i <= k < j ==> Plain(text[k])
    ensures ParseString(text, lim, i, count, done) == ParseString(text, lim, j, count, done + text[i..j])
    decreases j - i
  {
    if i == j {
      assert done + text[i..j] == done;
    } else {
      StringTurn(text, lim, i, count, done, [text[i]], i + 1);
      RawRead(text, lim, i + 1, j, count, done + [text[i]]);
      assert done + text[i..j] == done + [text[i]] + text[i + 1..j];
    }
  }

  lemma EncodedIsPlain(cp: nat)
    requires IsScalar(cp) && cp >= 0x20 && cp != 0x22 && cp != 0x5C
    ensures forall k :: 0 <= k < |Encode(cp)| ==> Plain(Encode(cp)[k])
  {
  }

  /** However a character is spelled, the string loop appends its encoding. */
  lemma CharRead(text: Bytes, lim: ParseLimits, i: nat, j: nat, count: nat, done: Bytes, cp: nat)
    requires CharAt(text, i, j, cp)
    ensures i < j <= |text|
    ensures ParseString(text, lim, i, count, done) == ParseString(text, lim, j, count, done + Encode(cp))
  {
    if RawAt(text, i, j, cp) {
      EncodedIsPlain(cp);
      AtSlice(text, i, Encode(cp));
      forall k | i <= k < j ensures Plain(text[k]) {
        AtByte(text, i, Encode(cp), k - i);
      }
      RawRead(text, lim, i, j, count, done);
    } else {
      EscapeRead(text, i, j, cp);
      StringTurn(text, lim, i, count, done, Encode(cp), j);
    }
  }

  lemma NextRead(text: Bytes, lim: ParseLimits, i: nat, m: nat, count: nat, done: Bytes, cp: nat, s: Bytes)
    requires NextChar(text, i, m, cp, s)
    ensures i < m <= |text| && |Encode(cp)| <= |s|
    ensures ParseString(text, lim, i, count, done) == ParseString(text, lim, m, count, done + Encode(cp))
    ensures done + s == done + Encode(cp) + s[|Encode(cp)|..]
  {
    CharRead(text, lim, i, m, count, done, cp);
    PrefixMoved(done, Encode(cp), s);
  }

  lemma PrefixMoved(done: Bytes, e: Bytes, s: Bytes)
    requires e <= s
    ensures done + s == done + e + s[|e|..]
  {
  }

  lemma {:induction false} CharsRead(text: Bytes, lim: ParseLimits, i: nat, j: nat, count: nat, done: Bytes, s: Bytes)
    requires CharsAt(text, i, j, s) && i <= |text|
    ensures i <= j <= |text|
    ensures ParseString(text, lim, i, count, done) == ParseString(text, lim, j, count, done + s)
    decreases |s|
  {
    if s == [] {
      EmptySuffix(done);
    } else {
      var cp: nat, m: nat :| NextChar(text, i, m, cp, s) && m <= j && CharsAt(text, m, j, s[|Encode(cp)|..]);
      NextRead(text, lim, i, m, count, done, cp, s);
      CharsRead(text, lim, m, j, count, done + Encode(cp), s[|Encode(cp)|..]);
    }
  }

  lemma EmptySuffix(s: Bytes)
    ensures s + [] == s
  {
  }

  lemma StringRead(text: Bytes, lim: ParseLimits, i: nat, j: nat, count: nat, s: Bytes)
    requires StringAt(text, i, j, s) && StringFits(s, lim)
    ensures i < |text| && text[i] == QUOTE && ParseString(text, lim, i + 1, count, []) == Ok(s, j, count)
  {
    BodyRead(text, lim, i + 1, j - 1, count, s);
    StringClosed(text, lim, j - 1, count, s);
  }

  lemma BodyRead(text: Bytes, lim: ParseLimits, i: nat, j: nat, count: nat, s: Bytes)
    requires CharsAt(text, i, j, s) && i <= |text|
    ensures i <= j <= |text| && ParseString(text, lim, i, count, []) == ParseString(text, lim, j, count, s)
  {
    CharsRead(text, lim, i, j, count, [], s);
    EmptyPrefix(s);
  }

  // ----- values -----

  /** A value's first byte is no space, so skipping space before it stops there. */
  lemma ValueStarts(text: Bytes, i: nat, j: nat, v: Value)
    requires ValueAt(text, i, j, v)
    ensures i < j <= |text| && SkipSpace(text, i) == i
    ensures text[i] != CLOSE_BRACKET && text[i] != CLOSE_BRACE
  {
    match v
    case Null => AtByte(text, i, [0x6E, 0x75, 0x6C, 0x6C], 0);
    case Boolean(b) =>
      var token := if b then [0x74, 0x72, 0x75, 0x65] else [0x66, 0x61, 0x6C, 0x73, 0x65];
      AtByte(text, i, token, 0);
    case Unsigned(n) =>
      DecimalRead(n);
      AtByte(text, i, Decimal(n), 0);
    case _ =>
  }

  /** Where reading may go on: no space, and nothing a number would go on with. */
  predicate Stops(text: Bytes, j: nat) {
    EndsNumber(text, j) && (j < |text| ==> !IsSpace(text[j]))
  }

  lemma SpaceStops(text: Bytes, b: nat, j: nat)
    requires Blanks(text, b, j) && Stops(text, j)
    ensures EndsNumber(text, b) && SkipSpace(text, b) == j
  {
    BlanksSkipped(text, b, j);
  }

  /** A value read where it starts is read from any space before it. */
  lemma ValueFromToken(text: Bytes, lim: ParseLimits, i: nat, a: nat, depth: nat, count: nat)
    requires Blanks(text, i, a) && a < |text| && SkipSpace(text, a) == a && depth <= lim.maxDepth && count + 1 <= lim.maxValues
    ensures ParseValue(text, lim, i, depth, count) == ParseToken(text, lim, a, depth, count + 1)
  {
    BlanksSkipped(text, i, a);
  }

  lemma ScalarRead(text: Bytes, lim: ParseLimits, i: nat, j: nat, depth: nat, count: nat, v: Value)
    requires ValueAt(text, i, j, v) && EndsNumber(text, j) && Fits(v, lim, depth, count) && !v.Array? && !v.Object?
    ensures i < j <= |text| && ParseToken(text, lim, i, depth, count + 1) == Ok(v, j, count + Count(v))
  {
    ValueStarts(text, i, j, v);
    match v
    case Null => AtByte(text, i, NULL_TEXT, 0);
    case Boolean(b) => AtByte(text, i, if b then TRUE_TEXT else FALSE_TEXT, 0);
    case Unsigned(n) => NumberExact(text, i, count + 1, n);
    case String(s) => StringRead(text, lim, i, j, count + 1, s);
  }

  lemma {:induction false} ValueRead(text: Bytes, lim: ParseLimits, i: nat, j: nat, depth: nat, count: nat, v: Value)
    requires ValueAt(text, i, j, v) && EndsNumber(text, j) && Fits(v, lim, depth, count)
    ensures i < j <= |text| && ParseToken(text, lim, i, depth, count + 1) == Ok(v, j, count + Count(v))
    decreases if i <= j then j - i else 0, 1
  {
    ValueStarts(text, i, j, v);
    match v
    case Array(items) => ArrayRead(text, lim, i, j, depth, count, items);
    case Object(members) => ObjectRead(text, lim, i, j, depth, count, members);
    case _ => ScalarRead(text, lim, i, j, depth, count, v);
  }

  /** What was read is `x`, after `n` values, and the next byte that is no space is at `j`. */
  ghost predicate Read<T>(p: Parsed<T>, x: T, n: nat, text: Bytes, j: nat) {
    p.Ok? && p.value == x && p.count == n && p.pos <= |text| && SkipSpace(text, p.pos) == j
  }

  /** Skipping space from `i` leads to a byte that opens something. */
  predicate Opens(text: Bytes, i: nat) {
    i <= |text| && SkipSpace(text, i) < |text| && text[SkipSpace(text, i)] != CLOSE_BRACKET && text[SkipSpace(text, i)] != CLOSE_BRACE
  }

  lemma {:induction false} ElementRead(text: Bytes, lim: ParseLimits, i: nat, j: nat, depth: nat, count: nat, v: Value)
    requires ElementAt(text, i, j, v) && Stops(text, j) && Fits(v, lim, depth, count)
    ensures Opens(text, i) && Read(ParseValue(text, lim, i, depth, count), v, count + Count(v), text, j)
    decreases if i <= j then j - i else 0, 2
  {
    var a: nat, b: nat :| a <= b && Blanks(text, i, a) && Blanks(text, b, j) && ValueAt(text, a, b, v);
    ValueStarts(text, a, b, v);
    SpaceStops(text, b, j);
    ValueRead(text, lim, a, b, depth, count, v);
    ValueFromToken(text, lim, i, a, depth, count);
    BlanksSkipped(text, i, a);
  }

  // ----- arrays -----

  lemma ArrayStarts(text: Bytes, lim: ParseLimits, i: nat, depth: nat, count: nat)
    requires i < |text| && text[i] == OPEN_BRACKET
    ensures ParseToken(text, lim, i, depth, count) ==
            (var q := SkipSpace(text, i + 1);
             if q < |text| && text[q] == CLOSE_BRACKET then Ok(Array([]), q + 1, count)
             else ParseItems(text, lim, i + 1, depth + 1, count, []))
  {
    ItemsSkip(text, lim, i + 1, depth + 1, count, []);
  }

  lemma ItemsSplit(text: Bytes, i: nat, j: nat, items: seq<Value>, k: nat) returns (m: nat)
    requires ItemsAt(text, i, j, items, k) && k + 1 < |items|
    ensures i <= m < j <= |text| && text[m] == COMMA && ElementAt(text, i, m, items[k]) && ItemsAt(text, m + 1, j, items, k + 1)
  {
    m :| i <= m < j <= |text| && text[m] == 0x2C && ElementAt(text, i, m, items[k]) && ItemsAt(text, m + 1, j, items, k + 1);
  }

  lemma CommaStops(text: Bytes, j: nat)
    requires j < |text| && (text[j] == COMMA || text[j] == CLOSE_BRACKET || text[j] == CLOSE_BRACE)
    ensures Stops(text, j)
  {
  }

  /** Elements from `k` on are read to the end. */
  ghost predicate ItemsDone(text: Bytes, lim: ParseLimits, i: nat, j: nat, depth: nat, count: nat, items: seq<Value>, k: nat)
    requires k <= |items|
  {
    Opens(text, i) && ParseItems(text, lim, i, depth, count, items[..k]) == Ok(Array(items), j + 1, count + CountItems(items, k))
  }

  lemma ItemsLastDone(text: Bytes, lim: ParseLimits, i: nat, j: nat, depth: nat, count: nat, items: seq<Value>, k: nat)
    requires k + 1 == |items| && Opens(text, i) && j < |text| && text[j] == CLOSE_BRACKET
    requires Read(ParseValue(text, lim, i, depth, count), items[k], count + Count(items[k]), text, j)
    ensures ItemsDone(text, lim, i, j, depth, count, items, k)
  {
    TakeOneMore(items, k);
    TakeAll(items);
    assert CountItems(items, |items|) == 0;
  }

  lemma ItemsNextDone(text: Bytes, lim: ParseLimits, i: nat, m: nat, j: nat, depth: nat, count: nat, items: seq<Value>, k: nat)
    requires k + 1 < |items| && Opens(text, i) && m < |text| && text[m] == COMMA
    requires Read(ParseValue(text, lim, i, depth, count), items[k], count + Count(items[k]), text, m)
    requires ItemsDone(text, lim, m + 1, j, depth, count + Count(items[k]), items, k + 1)
    ensures ItemsDone(text, lim, i, j, depth, count, items, k)
  {
    TakeOneMore(items, k);
  }

  lemma {:induction false} ItemsReadOn(text: Bytes, lim: ParseLimits, i: nat, m: nat, j: nat, depth: nat, count: nat,
                                      items: seq<Value>, k: nat)
    requires k + 1 < |items| && i <= m < j < |text| && text[m] == COMMA && text[j] == CLOSE_BRACKET
    requires ElementAt(text, i, m, items[k]) && ItemsAt(text, m + 1, j, items, k + 1)
    requires AdmissibleItems(items, k, lim, lim.maxDepth - depth) && count + CountItems(items, k) <= lim.maxValues
    ensures ItemsDone(text, lim, i, j, depth, count, items, k)
    decreases j - i, 3
  {
    CommaStops(text, m);
    ElementRead(text, lim, i, m, depth, count, items[k]);
    ItemsRead(text, lim, m + 1, j, depth, count + Count(items[k]), items, k + 1);
    ItemsNextDone(text, lim, i, m, j, depth, count, items, k);
  }

  lemma {:induction false} ItemsRead(text: Bytes, lim: ParseLimits, i: nat, j: nat, depth: nat, count: nat, items: seq<Value>, k: nat)
    requires ItemsAt(text, i, j, items, k) && k < |items| && j < |text| && text[j] == CLOSE_BRACKET
    requires AdmissibleItems(items, k, lim, lim.maxDepth - depth) && count + CountItems(items, k) <= lim.maxValues
    ensures ItemsDone(text, lim, i, j, depth, count, items, k)
    decreases if i <= j then j - i else 0, 4
  {
    if k + 1 == |items| {
      CommaStops(text, j);
      ElementRead(text, lim, i, j, depth, count, items[k]);
      ItemsLastDone(text, lim, i, j, depth, count, items, k);
    } else {
      var m := ItemsSplit(text, i, j, items, k);
      ItemsReadOn(text, lim, i, m, j, depth, count, items, k);
    }
  }

  lemma {:induction false} ArrayRead(text: Bytes, lim: ParseLimits, i: nat, j: nat, depth: nat, count: nat, items: seq<Value>)
    requires ValueAt(text, i, j, Array(items)) && Fits(Array(items), lim, depth, count)
    ensures i < |text| && ParseToken(text, lim, i, depth, count + 1) == Ok(Array(items), j, count + Count(Array(items)))
    decreases if i <= j then j - i else 0, 0
  {
    ArrayStarts(text, lim, i, depth, count + 1);
    if items == [] {
      BlanksSkipped(text, i + 1, j - 1);
    } else {
      ItemsRead(text, lim, i + 1, j - 1, depth + 1, count + 1, items, 0);
      assert items[..0] == [];
    }
  }

  // ----- objects -----

  lemma KeyReadAt(text: Bytes, lim: ParseLimits, i: nat, a: nat, b: nat, c: nat, count: nat, key: Bytes)
    requires Blanks(text, i, a) && Blanks(text, b, c) && StringAt(text, a, b, key)
    requires c < |text| && text[c] == COLON && StringFits(key, lim)
    ensures Opens(text, i) && ParseKey(text, lim, SkipSpace(text, i), count) == Ok(key, c + 1, count)
  {
    StringRead(text, lim, a, b, count, key);
    BlanksSkipped(text, i, a);
    BlanksSkipped(text, b, c);
  }

  lemma KeyRead(text: Bytes, lim: ParseLimits, i: nat, c: nat, count: nat, key: Bytes)
    requires KeyAt(text, i, c, key) && c < |text| && text[c] == COLON && StringFits(key, lim)
    ensures Opens(text, i) && ParseKey(text, lim, SkipSpace(text, i), count) == Ok(key, c + 1, count)
  {
    var a: nat, b: nat :| Blanks(text, i, a) && Blanks(text, b, c) && StringAt(text, a, b, key);
    KeyReadAt(text, lim, i, a, b, c, count, key);
  }

  lemma MemberSplit(text: Bytes, i: nat, j: nat, m: Member) returns (c: nat)
    requires MemberAt(text, i, j, m)
    ensures i <= c < j <= |text| && text[c] == COLON && KeyAt(text, i, c, m.key) && ElementAt(text, c + 1, j, m.value)
  {
    c :| i <= c < j <= |text| && text[c] == 0x3A && KeyAt(text, i, c, m.key) && ElementAt(text, c + 1, j, m.value);
  }

  lemma MemberOfParts(text: Bytes, lim: ParseLimits, i: nat, c: nat, j: nat, depth: nat, count: nat, m: Member, n: nat)
    requires i <= |text| && c < |text| && ParseKey(text, lim, SkipSpace(text, i), count) == Ok(m.key, c + 1, count)
    requires Read(ParseValue(text, lim, c + 1, depth, count), m.value, n, text, j)
    ensures Read(ParseMember(text, lim, i, depth, count), m, n, text, j)
  {
  }

  lemma MemberKeyRead(text: Bytes, lim: ParseLimits, i: nat, j: nat, count: nat, m: Member) returns (c: nat)
    requires MemberAt(text, i, j, m) && StringFits(m.key, lim)
    ensures Opens(text, i) && i <= c < j <= |text| && ElementAt(text, c + 1, j, m.value)
    ensures ParseKey(text, lim, SkipSpace(text, i), count) == Ok(m.key, c + 1, count)
  {
    c := MemberSplit(text, i, j, m);
    KeyRead(text, lim, i, c, count, m.key);
  }

  lemma {:induction false} MemberValueRead(text: Bytes, lim: ParseLimits, i: nat, c: nat, j: nat, depth: nat, count: nat, m: Member)
    requires i <= c < j <= |text| && ElementAt(text, c + 1, j, m.value) && Stops(text, j) && Fits(m.value, lim, depth, count)
    requires ParseKey(text, lim, SkipSpace(text, i), count) == Ok(m.key, c + 1, count)
    ensures Read(ParseMember(text, lim, i, depth, count), m, count + Count(m.value), text, j)
    decreases j - i, 3
  {
    ElementRead(text, lim, c + 1, j, depth, count, m.value);
    MemberOfParts(text, lim, i, c, j, depth, count, m, count + Count(m.value));
  }

  lemma {:induction false} MemberRead(text: Bytes, lim: ParseLimits, i: nat, j: nat, depth: nat, count: nat, m: Member)
    requires MemberAt(text, i, j, m) && Stops(text, j) && StringFits(m.key, lim) && Fits(m.value, lim, depth, count)
    ensures Opens(text, i) && Read(ParseMember(text, lim, i, depth, count), m, count + Count(m.value), text, j)
    decreases if i <= j then j - i else 0, 4
  {
    var c := MemberKeyRead(text, lim, i, j, count, m);
    MemberValueRead(text, lim, i, c, j, depth, count, m);
  }

  /** The members of `order` from `k` on, put one by one where they belong. */
  function Placed(done: seq<Member>, order: seq<Member>, k: nat): seq<Member>
    decreases |order| - k
  {
    if k >= |order| then done else Placed(Insert(done, order[k]), order, k + 1)
  }

  /** From `k` on keys are new, each to what is done and to each other. */
  predicate NewKeys(done: seq<Member>, order: seq<Member>, k: nat) {
    && (forall t :: k <= t < |order| ==> !HasKey(done, order[t].key))
    && forall s, t :: k <= s < t < |order| ==> order[s].key != order[t].key
  }

  lemma InsertedKey(done: seq<Member>, m: Member, key: Bytes)
    ensures HasKey(Insert(done, m), key) <==> HasKey(done, key) || m.key == key
  {
    var i := Slot(done, m.key);
    var ins := Insert(done, m);
    HasKeyAt(done, key);
    HasKeyAt(ins, key);
    if HasKey(done, key) {
      var t :| 0 <= t < |done| && done[t].key == key;
      assert ins[if t < i then t else t + 1] == done[t];
    }
    assert ins[i] == m;
  }

  lemma StillNew(done: seq<Member>, order: seq<Member>, k: nat)
    requires k < |order| && NewKeys(done, order, k)
    ensures NewKeys(Insert(done, order[k]), order, k + 1)
  {
    forall t | k + 1 <= t < |order| ensures !HasKey(Insert(done, order[k]), order[t].key) {
      InsertedKey(done, order[k], order[t].key);
    }
  }

  /** Every member from `k` on fits by itself. */
  ghost predicate EachFits(order: seq<Member>, k: nat, lim: ParseLimits, budget: int) {
    forall t :: k <= t < |order| ==> StringFits(order[t].key, lim) && Admissible(order[t].value, lim, budget)
  }

  /** Member by member, each fits and its key is new. */
  ghost predicate Ready(order: seq<Member>, k: nat, lim: ParseLimits, budget: int, done: seq<Member>)
    decreases |order| - k
  {
    k >= |order| ||
    (&& StringFits(order[k].key, lim) && Admissible(order[k].value, lim, budget) && !HasKey(done, order[k].key)
     && Ready(order, k + 1, lim, budget, Insert(done, order[k])))
  }

  lemma {:induction false} AllReady(order: seq<Member>, k: nat, lim: ParseLimits, budget: int, done: seq<Member>)
    requires EachFits(order, k, lim, budget) && NewKeys(done, order, k)
    ensures Ready(order, k, lim, budget, done)
    decreases |order| - k
  {
    if k < |order| {
      StillNew(done, order, k);
      AllReady(order, k + 1, lim, budget, Insert(done, order[k]));
    }
  }

  lemma MembersSplit(text: Bytes, i: nat, j: nat, order: seq<Member>, k: nat) returns (m: nat)
    requires MembersAt(text, i, j, order, k) && k + 1 < |order|
    ensures i <= m < j <= |text| && text[m] == COMMA && MemberAt(text, i, m, order[k]) && MembersAt(text, m + 1, j, order, k + 1)
  {
    m :| i <= m < j <= |text| && text[m] == 0x2C && MemberAt(text, i, m, order[k]) && MembersAt(text, m + 1, j, order, k + 1);
  }

  /** Members from `k` on are read to the end. */
  ghost predicate MembersDone(text: Bytes, lim: ParseLimits, i: nat, j: nat, depth: nat, count: nat, order: seq<Member>, k: nat,
                              done: seq<Member>)
    requires k <= |order|
  {
    && Opens(text, i)
    && ParseMembers(text, lim, i, depth, count, done) == Ok(Object(Placed(done, order, k)), j + 1, count + CountMembers(order, k))
  }

  lemma MembersLastDone(text: Bytes, lim: ParseLimits, i: nat, j: nat, depth: nat, count: nat, order: seq<Member>, k: nat,
                        done: seq<Member>)
    requires k + 1 == |order| && Opens(text, i) && j < |text| && text[j] == CLOSE_BRACE && !HasKey(done, order[k].key)
    requires Read(ParseMember(text, lim, i, depth, count), order[k], count + Count(order[k].value), text, j)
    ensures MembersDone(text, lim, i, j, depth, count, order, k, done)
  {
    assert Placed(done, order, k) == Insert(done, order[k]);
  }

  lemma MembersNextDone(text: Bytes, lim: ParseLimits, i: nat, m: nat, j: nat, depth: nat, count: nat, order: seq<Member>, k: nat,
                        done: seq<Member>)
    requires k + 1 < |order| && Opens(text, i) && m < |text| && text[m] == COMMA && !HasKey(done, order[k].key)
    requires Read(ParseMember(text, lim, i, depth, count), order[k], count + Count(order[k].value), text, m)
    requires MembersDone(text, lim, m + 1, j, depth, count + Count(order[k].value), order, k + 1, Insert(done, order[k]))
    ensures MembersDone(text, lim, i, j, depth, count, order, k, done)
  {
  }

  lemma {:induction false} MembersReadOn(text: Bytes, lim: ParseLimits, i: nat, m: nat, j: nat, depth: nat, count: nat, order: seq<Member>,
                                         k: nat, done: seq<Member>)
    requires k + 1 < |order| && i <= m < j < |text| && text[m] == COMMA && text[j] == CLOSE_BRACE
    requires MemberAt(text, i, m, order[k]) && MembersAt(text, m + 1, j, order, k + 1)
    requires Ready(order, k, lim, lim.maxDepth - depth, done) && count + CountMembers(order, k) <= lim.maxValues
    ensures MembersDone(text, lim, i, j, depth, count, order, k, done)
    decreases j - i, 5
  {
    CommaStops(text, m);
    MemberRead(text, lim, i, m, depth, count, order[k]);
    MembersReadAll(text, lim, m + 1, j, depth, count + Count(order[k].value), order, k + 1, Insert(done, order[k]));
    MembersNextDone(text, lim, i, m, j, depth, count, order, k, done);
  }

  lemma {:induction false} MembersReadAll(text: Bytes, lim: ParseLimits, i: nat, j: nat, depth: nat, count: nat, order: seq<Member>, k: nat,
                                          done: seq<Member>)
    requires MembersAt(text, i, j, order, k) && k < |order| && j < |text| && text[j] == CLOSE_BRACE
    requires Ready(order, k, lim, lim.maxDepth - depth, done) && count + CountMembers(order, k) <= lim.maxValues
    ensures MembersDone(text, lim, i, j, depth, count, order, k, done)
    decreases if i <= j then j - i else 0, 6
  {
    if k + 1 == |order| {
      CommaStops(text, j);
      MemberRead(text, lim, i, j, depth, count, order[k]);
      MembersLastDone(text, lim, i, j, depth, count, order, k, done);
    } else {
      var m := MembersSplit(text, i, j, order, k);
      MembersReadOn(text, lim, i, m, j, depth, count, order, k, done);
    }
  }

  // ----- the order of members does not matter -----

  lemma {:induction false} PlacedExact(done: seq<Member>, order: seq<Member>, k: nat)
    requires k <= |order| && Ascending(done, 0) && NewKeys(done, order, k)
    ensures var p := Placed(done, order, k);
            && Ascending(p, 0) && multiset(p) == multiset(done) + multiset(order[k..])
            && CountMembers(p, 0) == CountMembers(done, 0) + CountMembers(order, k)
    decreases |order| - k
  {
    if k == |order| {
      assert order[k..] == [];
    } else {
      var more := Insert(done, order[k]);
      InsertAscending(done, order[k]);
      InsertCounts(done, order[k]);
      StillNew(done, order, k);
      PlacedExact(more, order, k + 1);
      TailAdds(order, k);
    }
  }

  lemma InsertCounts(done: seq<Member>, m: Member)
    ensures multiset(Insert(done, m)) == multiset(done) + multiset{m}
    ensures CountMembers(Insert(done, m), 0) == CountMembers(done, 0) + Count(m.value)
  {
    var i := Slot(done, m.key);
    SplitAt(done, i);
    InsertAdds(done, m, i, 0, ParseLimits(0, 0, 0, 0), 0);
  }

  /** Keys strictly ascend, stated for every pair. */
  predicate Strict(s: seq<Member>) {
    forall i, j :: 0 <= i < j < |s| ==> Less(s[i].key, s[j].key)
  }

  lemma AscendingStrict(s: seq<Member>)
    requires Ascending(s, 0)
    ensures Strict(s)
  {
    forall i, j | 0 <= i < j < |s| ensures Less(s[i].key, s[j].key) {
      AscendingPair(s, i, j);
    }
  }

  lemma StrictFirst(a: seq<Member>, b: seq<Member>)
    requires a != [] && Strict(a) && Strict(b) && multiset(a) == multiset(b)
    ensures b != [] && a[0] == b[0]
  {
    assert a[0] in multiset(a);
    assert a[0] in b;
    var t :| 0 <= t < |b| && b[t] == a[0];
    assert b[0] in multiset(b);
    assert b[0] in a;
    var u :| 0 <= u < |a| && a[u] == b[0];
    LessTotal(a[0].key, b[0].key);
  }

  /** Two ascending lists of the same members are equal. */
  lemma {:induction false} StrictUnique(a: seq<Member>, b: seq<Member>)
    requires Strict(a) && Strict(b) && multiset(a) == multiset(b)
    ensures a == b
  {
    if a == [] {
      assert multiset(b) == multiset{};
      assert b == [];
    } else {
      StrictFirst(a, b);
      SameTails(a, b);
      StrictUnique(a[1..], b[1..]);
      HeadAndTail(a);
      HeadAndTail(b);
    }
  }

  /** An arrangement of members with distinct keys has distinct keys. */
  lemma ArrangedKeys(order: seq<Member>, members: seq<Member>)
    requires multiset(order) == multiset(members) && Strict(members)
    ensures NewKeys([], order, 0)
  {
    forall s, t | 0 <= s < t < |order| ensures order[s].key != order[t].key {
      if order[s].key == order[t].key {
        assert order[s] in multiset(order) && order[t] in multiset(order);
        var u :| 0 <= u < |members| && members[u] == order[s];
        var w :| 0 <= w < |members| && members[w] == order[t];
        LessTotal(members[u].key, members[w].key);
        assert u == w;
        MetTwice(order, s, t);
        MetOnce(members, u);
      }
    }
  }

  lemma MetOnce(s: seq<Member>, i: nat)
    requires i < |s| && Strict(s)
    ensures multiset(s)[s[i]] == 1
  {
    assert s == s[..i] + [s[i]] + s[i + 1..];
    LessTotal(s[i].key, s[i].key);
    assert s[i] !in s[..i] && s[i] !in s[i + 1..];
  }

  lemma {:induction false} AdmissibleEach(members: seq<Member>, i: nat, lim: ParseLimits, budget: int, m: Member)
    requires i <= |members| && AdmissibleMembers(members, i, lim, budget) && m in members[i..]
    ensures StringFits(m.key, lim) && Admissible(m.value, lim, budget)
    decreases |members| - i
  {
    if m != members[i] {
      assert members[i..] == [members[i]] + members[i + 1..];
      AdmissibleEach(members, i + 1, lim, budget, m);
    }
  }

  lemma ArrangedFits(order: seq<Member>, members: seq<Member>, lim: ParseLimits, budget: int)
    requires multiset(order) == multiset(members) && AdmissibleMembers(members, 0, lim, budget)
    ensures EachFits(order, 0, lim, budget)
  {
    forall t | 0 <= t < |order| ensures StringFits(order[t].key, lim) && Admissible(order[t].value, lim, budget) {
      assert order[t] in multiset(order);
      assert members[0..] == members;
      AdmissibleEach(members, 0, lim, budget, order[t]);
    }
  }

  /** Members arranged in any order are put back in theirs. */
  lemma ArrangedPlaced(order: seq<Member>, members: seq<Member>)
    requires multiset(order) == multiset(members) && Ascending(members, 0)
    ensures NewKeys([], order, 0) && Placed([], order, 0) == members && CountMembers(order, 0) == CountMembers(members, 0)
  {
    AscendingStrict(members);
    ArrangedKeys(order, members);
    PlacedExact([], order, 0);
    assert order[0..] == order;
    AscendingStrict(Placed([], order, 0));
    StrictUnique(Placed([], order, 0), members);
  }

  lemma ObjectStarts(text: Bytes, lim: ParseLimits, i: nat, depth: nat, count: nat)
    requires i < |text| && text[i] == OPEN_BRACE
    ensures ParseToken(text, lim, i, depth, count) ==
            (var q := SkipSpace(text, i + 1);
             if q < |text| && text[q] == CLOSE_BRACE then Ok(Object([]), q + 1, count)
             else ParseMembers(text, lim, i + 1, depth + 1, count, []))
  {
    MembersSkip(text, lim, i + 1, depth + 1, count, []);
  }

  /** The arrangement behind an object's text, and that it can be read. */
  lemma ObjectSplit(text: Bytes, i: nat, j: nat, members: seq<Member>, lim: ParseLimits, budget: int) returns (order: seq<Member>)
    requires ArrangedAt(text, i, j, members) && Ascending(members, 0) && members != [] && AdmissibleMembers(members, 0, lim, budget)
    ensures order != [] && MembersAt(text, i, j, order, 0) && Ready(order, 0, lim, budget, [])
    ensures Placed([], order, 0) == members && CountMembers(order, 0) == CountMembers(members, 0)
  {
    order :| multiset(order) == multiset(members) && MembersAt(text, i, j, order, 0);
    ArrangedPlaced(order, members);
    ArrangedFits(order, members, lim, budget);
    AllReady(order, 0, lim, budget, []);
  }

  /** From the members read to the object read. */
  lemma ObjectDone(text: Bytes, lim: ParseLimits, i: nat, j: nat, depth: nat, count: nat, order: seq<Member>, members: seq<Member>)
    requires i + 2 <= j <= |text| && text[i] == OPEN_BRACE && MembersDone(text, lim, i + 1, j - 1, depth + 1, count + 1, order, 0, [])
    requires Placed([], order, 0) == members && CountMembers(order, 0) == CountMembers(members, 0)
    ensures ParseToken(text, lim, i, depth, count + 1) == Ok(Object(members), j, count + Count(Object(members)))
  {
    ObjectStarts(text, lim, i, depth, count + 1);
  }

  lemma {:induction false} ObjectRead(text: Bytes, lim: ParseLimits, i: nat, j: nat, depth: nat, count: nat, members: seq<Member>)
    requires ValueAt(text, i, j, Object(members)) && Fits(Object(members), lim, depth, count)
    ensures i < |text| && ParseToken(text, lim, i, depth, count + 1) == Ok(Object(members), j, count + Count(Object(members)))
    decreases if i <= j then j - i else 0, 0
  {
    if members == [] {
      ObjectStarts(text, lim, i, depth, count + 1);
      BlanksSkipped(text, i + 1, j - 1);
    } else {
      var order := ObjectSplit(text, i + 1, j - 1, members, lim, lim.maxDepth - (depth + 1));
      MembersReadAll(text, lim, i + 1, j - 1, depth + 1, count + 1, order, 0, []);
      ObjectDone(text, lim, i, j, depth, count, order, members);
    }
  }

  /** Every spelling within the limits, whatever its space, escapes and order of members, is read as its value. */
  lemma SpellingRead(text: Bytes, lim: ParseLimits, v: Value)
    requires Spells(text, v) && |text| <= lim.maxBytes && Fits(v, lim, 0, 0)
    ensures Parse(text, lim) == Ok(v, |text|, Count(v))
  {
    ElementRead(text, lim, 0, |text|, 0, 0, v);
    SkipTwice(text, 0);
  }
}
