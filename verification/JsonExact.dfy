/**
  * What the parser does with a canonical encoding: it gives the encoded value back, and it
  * does so exactly when the value stays within the limits.
  */
module JsonExact {
  import opened Bytes
  import opened Sequences
  import opened Utf8
  import opened Json
  import opened JsonParser

  // ----- strings -----

  /** One escaped byte is read back as that byte. */
  lemma StepEscaped(text: Bytes, pos: nat, b: byte)
    requires At(text, pos, EscapedByte(b))
    ensures Step(text, pos) == Emit([b], pos + |EscapedByte(b)|)
  {
    var e := EscapedByte(b);
    forall k | 0 <= k < |e| ensures text[pos + k] == e[k] {
      AtByte(text, pos, e, k);
    }
    assert text[pos + 0] == e[0];
    if |e| == 2 {
      assert text[pos + 1] == e[1];
    } else if |e| == 6 {
      HexDigitRead(b / 16);
      HexDigitRead(b % 16);
      assert text[pos + 1] == e[1] && text[pos + 2] == e[2] && text[pos + 3] == e[3];
      assert text[pos + 4] == e[4] && text[pos + 5] == e[5];
      assert HexAt(text, pos + 2) && HexCode(text, pos + 2) == b;
    }
  }

  lemma HexDigitRead(d: nat)
    requires d < 16
    ensures IsHex(HexDigit(d)) && HexValue(HexDigit(d)) == d
  {
  }

  /** One turn of the string loop. */
  lemma StringTurn(text: Bytes, lim: ParseLimits, pos: nat, count: nat, done: Bytes, bytes: Bytes, next: nat)
    requires pos < |text| && Step(text, pos) == Emit(bytes, next)
    ensures ParseString(text, lim, pos, count, done) == ParseString(text, lim, next, count, done + bytes)
  {
  }

  lemma StringClosed(text: Bytes, lim: ParseLimits, pos: nat, count: nat, s: Bytes)
    requires pos < |text| && text[pos] == QUOTE
    ensures ParseString(text, lim, pos, count, s) ==
            if |s| > lim.maxStringBytes then Err(StringBudget)
            else if !IsUtf8(s) then Err(NotUtf8)
            else Ok(s, pos + 1, count)
  {
  }

  /** The first escaped byte of a string body, taken off the text. */
  lemma EscapedHead(text: Bytes, pos: nat, s: Bytes, i: nat) returns (next: nat)
    requires i < |s| && At(text, pos, EscapedFrom(s, i))
    ensures pos < |text| && Step(text, pos) == Emit([s[i]], next)
    ensures At(text, next, EscapedFrom(s, i + 1))
    ensures pos + |EscapedFrom(s, i)| == next + |EscapedFrom(s, i + 1)|
  {
    next := pos + |EscapedByte(s[i])|;
    AtConcat(text, pos, EscapedByte(s[i]), EscapedFrom(s, i + 1));
    StepEscaped(text, pos, s[i]);
  }

  lemma {:induction false} StringExact(text: Bytes, lim: ParseLimits, pos: nat, count: nat, s: Bytes, i: nat)
    requires i <= |s| && At(text, pos, EscapedFrom(s, i))
    ensures ParseString(text, lim, pos, count, s[..i]) ==
            if |s| > lim.maxStringBytes then Err(StringBudget)
            else if !IsUtf8(s) then Err(NotUtf8)
            else Ok(s, pos + |EscapedFrom(s, i)|, count)
    decreases |s| - i
  {
    if i == |s| {
      AtByte(text, pos, [QUOTE], 0);
      assert s[..i] == s;
      StringClosed(text, lim, pos, count, s);
    } else {
      var next := EscapedHead(text, pos, s, i);
      StringTurn(text, lim, pos, count, s[..i], [s[i]], next);
      assert s[..i] + [s[i]] == s[..i + 1];
      StringExact(text, lim, next, count, s, i + 1);
    }
  }

  lemma QuoteAt(text: Bytes, pos: nat, s: Bytes)
    requires At(text, pos, Quoted(s))
    ensures text[pos] == QUOTE && SkipSpace(text, pos) == pos
  {
    AtConcat(text, pos, [QUOTE], EscapedFrom(s, 0));
    AtByte(text, pos, [QUOTE], 0);
  }

  lemma QuotedExact(text: Bytes, lim: ParseLimits, pos: nat, count: nat, s: Bytes)
    requires At(text, pos, Quoted(s))
    ensures text[pos] == QUOTE
    ensures var r := ParseString(text, lim, pos + 1, count, []);
            if StringFits(s, lim) then r == Ok(s, pos + |Quoted(s)|, count) else r.Err?
  {
    AtConcat(text, pos, [QUOTE], EscapedFrom(s, 0));
    AtByte(text, pos, [QUOTE], 0);
    assert s[..0] == [];
    StringExact(text, lim, pos + 1, count, s, 0);
  }

  // ----- numbers -----

  /** `Decimal` writes the digits of its argument, without a leading zero. */
  lemma {:induction false} DecimalRead(n: nat)
    ensures AllDigits(Decimal(n)) && DecimalValue(Decimal(n)) == n
    ensures |Decimal(n)| > 1 ==> Decimal(n)[0] != 0x30
    decreases n
  {
    if n < 10 {
      assert Decimal(n)[..0] == [];
    } else {
      DecimalRead(n / 10);
      var d := Decimal(n);
      assert d[..|d| - 1] == Decimal(n / 10);
      if n / 10 < 10 {
        assert d[0] == 0x30 + n / 10;
      }
    }
  }

  /** Conversely a digit string without leading zero is the `Decimal` of its value. */
  lemma {:induction false} DecimalUnique(s: Bytes)
    requires s != [] && AllDigits(s) && (|s| > 1 ==> s[0] != 0x30)
    ensures Decimal(DecimalValue(s)) == s
    decreases |s|
  {
    var front, last := s[..|s| - 1], s[|s| - 1];
    assert s == front + [last];
    if front == [] {
      assert DecimalValue(front) == 0;
    } else {
      DecimalUnique(front);
      LeadingDigitPositive(front);
      var high := DecimalValue(front);
      assert DecimalValue(s) / 10 == high && DecimalValue(s) % 10 == last - 0x30;
    }
  }

  lemma {:induction false} LeadingDigitPositive(s: Bytes)
    requires s != [] && AllDigits(s) && s[0] != 0x30
    ensures DecimalValue(s) > 0
    decreases |s|
  {
    if |s| > 1 {
      LeadingDigitPositive(s[..|s| - 1]);
    } else {
      assert DecimalValue(s[..0]) == 0;
    }
  }

  /** The twenty bytes the encoder reserves are enough for every 64-bit number. */
  lemma DecimalLength(n: uint64)
    ensures |Decimal(n)| <= 20
  {
    assert PowerOfTen(20) == 1_0000_0000_0000_0000_0000 by {
      PowerOfTenStep(4);
      PowerOfTenStep(8);
      PowerOfTenStep(12);
      PowerOfTenStep(16);
    }
    DigitBound(n, 20);
  }

  lemma PowerOfTenStep(k: nat)
    ensures PowerOfTen(k + 4) == 10000 * PowerOfTen(k)
  {
    assert PowerOfTen(k + 2) == 100 * PowerOfTen(k);
  }

  function PowerOfTen(k: nat): (p: nat)
    ensures p >= 1
  {
    if k == 0 then 1 else 10 * PowerOfTen(k - 1)
  }

  lemma {:induction false} DigitBound(n: nat, k: nat)
    requires k > 0 && n < PowerOfTen(k)
    ensures |Decimal(n)| <= k
    decreases k
  {
    if n >= 10 {
      assert k > 1 by {
        assert PowerOfTen(1) == 10 * PowerOfTen(0);
      }
      DigitBound(n / 10, k - 1);
    }
  }

  /** What may follow a number in a canonical text: nothing, or closing or separating punctuation. */
  predicate Delimited(text: Bytes, pos: nat) {
    pos == |text| ||
    (pos < |text| && (text[pos] == COMMA || text[pos] == CLOSE_BRACKET || text[pos] == CLOSE_BRACE))
  }

  lemma {:induction false} DigitsEndAt(text: Bytes, pos: nat, end: nat)
    requires pos <= end <= |text|
    requires forall k :: pos <= k < end ==> IsDigit(text[k])
    requires end == |text| || !IsDigit(text[end])
    ensures DigitsEnd(text, pos) == end
    decreases end - pos
  {
    if pos < end {
      DigitsEndAt(text, pos + 1, end);
    }
  }

  /** No byte that would continue a number or make it a fraction. */
  predicate EndsNumber(text: Bytes, pos: nat) {
    pos == |text| || (pos < |text| && !IsDigit(text[pos]) && text[pos] != 0x2E && text[pos] != 0x65 && text[pos] != 0x45)
  }

  /** A run of digits, no zero leading, is read whole. */
  lemma DigitsExact(text: Bytes, pos: nat, count: nat, d: Bytes)
    requires d != [] && AllDigits(d) && (d[0] == 0x30 ==> |d| == 1) && DecimalValue(d) <= MAX_UINT64
    requires At(text, pos, d) && EndsNumber(text, pos + |d|)
    ensures pos < |text| && IsDigit(text[pos])
    ensures ParseNumber(text, pos, count) == Ok(Unsigned(DecimalValue(d)), pos + |d|, count)
  {
    var end := pos + |d|;
    forall k | pos <= k < end ensures IsDigit(text[k]) {
      AtByte(text, pos, d, k - pos);
    }
    AtByte(text, pos, d, 0);
    if |d| > 1 {
      AtByte(text, pos, d, 1);
    }
    DigitsEndAt(text, pos, end);
    AtSlice(text, pos, d);
  }

  lemma NumberExact(text: Bytes, pos: nat, count: nat, n: uint64)
    requires At(text, pos, Decimal(n)) && EndsNumber(text, pos + |Decimal(n)|)
    ensures pos < |text| && IsDigit(text[pos])
    ensures ParseNumber(text, pos, count) == Ok(Unsigned(n), pos + |Decimal(n)|, count)
  {
    DecimalRead(n);
    DigitsExact(text, pos, count, Decimal(n));
  }

  // ----- values -----

  lemma FirstByte(v: Value)
    ensures Canonical(v) != [] && !IsSpace(Canonical(v)[0])
  {
    if v.Unsigned? {
      DecimalRead(v.n);
    }
  }

  lemma NoSpaceAt(text: Bytes, pos: nat, v: Value)
    requires At(text, pos, Canonical(v))
    ensures pos < |text| && SkipSpace(text, pos) == pos && text[pos] == Canonical(v)[0]
  {
    FirstByte(v);
    AtByte(text, pos, Canonical(v), 0);
  }

  /**
    * At an occurrence of a canonical encoding the parser returns the encoded value and stops
    * behind it if the value fits the limits, and refuses otherwise.
    */
  lemma {:induction false} ValueExact(text: Bytes, lim: ParseLimits, pos: nat, depth: nat, count: nat, v: Value)
    requires Ordered(v) && At(text, pos, Canonical(v)) && Delimited(text, pos + |Canonical(v)|)
    ensures var r := ParseValue(text, lim, pos, depth, count);
            if Fits(v, lim, depth, count) then r == Ok(v, pos + |Canonical(v)|, count + Count(v)) else r.Err?
    decreases v, 0
  {
    NoSpaceAt(text, pos, v);
    if depth <= lim.maxDepth && count + 1 <= lim.maxValues {
      match v
      case Null =>
      case Boolean(b) =>
      case Unsigned(n) => NumberExact(text, pos, count + 1, n);
      case String(s) => QuotedExact(text, lim, pos, count + 1, s);
      case Array(items) =>
        AtConcat(text, pos, [OPEN_BRACKET], ItemsFrom(items, 0));
        ArrayExact(text, lim, pos, depth, count, items);
      case Object(members) =>
        AtConcat(text, pos, [OPEN_BRACE], MembersFrom(members, 0));
        ObjectExact(text, lim, pos, depth, count, members);
    }
  }

  ghost predicate ItemsFit(items: seq<Value>, i: nat, lim: ParseLimits, depth: nat, count: nat)
    requires i <= |items|
  {
    && count + CountItems(items, i) <= lim.maxValues
    && AdmissibleItems(items, i, lim, lim.maxDepth - depth)
  }

  lemma ArrayToken(text: Bytes, lim: ParseLimits, pos: nat, depth: nat, count: nat)
    requires pos + 1 < |text| && text[pos] == OPEN_BRACKET && SkipSpace(text, pos + 1) == pos + 1
    requires depth <= lim.maxDepth && count + 1 <= lim.maxValues
    ensures ParseValue(text, lim, pos, depth, count) ==
            if text[pos + 1] == CLOSE_BRACKET then Ok(Array([]), pos + 2, count + 1)
            else ParseItems(text, lim, pos + 1, depth + 1, count + 1, [])
  {
    assert SkipSpace(text, pos) == pos;
  }

  lemma ArrayFits(items: seq<Value>, lim: ParseLimits, depth: nat, count: nat)
    requires depth <= lim.maxDepth
    ensures Fits(Array(items), lim, depth, count) <==> ItemsFit(items, 0, lim, depth + 1, count + 1)
  {
  }

  lemma {:induction false} ArrayExact(text: Bytes, lim: ParseLimits, pos: nat, depth: nat, count: nat, items: seq<Value>)
    requires OrderedItems(items, 0) && At(text, pos + 1, ItemsFrom(items, 0))
    requires pos < |text| && text[pos] == OPEN_BRACKET
    requires depth <= lim.maxDepth && count + 1 <= lim.maxValues
    ensures var r := ParseValue(text, lim, pos, depth, count);
            var v := Array(items);
            if Fits(v, lim, depth, count) then r == Ok(v, pos + |Canonical(v)|, count + Count(v)) else r.Err?
    decreases items, |items| + 1
  {
    if items == [] {
      AtByte(text, pos + 1, [CLOSE_BRACKET], 0);
      ArrayToken(text, lim, pos, depth, count);
    } else {
      var start, after := ItemsHead(text, pos + 1, items, 0);
      NoSpaceAt(text, start, items[0]);
      ArrayToken(text, lim, pos, depth, count);
      assert items[..0] == [];
      ItemsExact(text, lim, pos + 1, depth + 1, count + 1, items, 0);
      ArrayFits(items, lim, depth, count);
    }
  }

  lemma FirstByteNotClosing(v: Value)
    ensures Canonical(v) != [] && Canonical(v)[0] != CLOSE_BRACKET && Canonical(v)[0] != CLOSE_BRACE
  {
    if v.Unsigned? {
      DecimalRead(v.n);
    }
  }

  /** One turn of the element loop. */
  lemma ItemsTurn(text: Bytes, lim: ParseLimits, pos: nat, depth: nat, count: nat, done: seq<Value>, v: Value, p: nat, n: nat)
    requires pos <= |text| && ParseValue(text, lim, pos, depth, count) == Ok(v, p, n)
    requires p < |text| && (text[p] == CLOSE_BRACKET || text[p] == COMMA)
    ensures ParseItems(text, lim, pos, depth, count, done) ==
            if text[p] == COMMA then ParseItems(text, lim, p + 1, depth, n, done + [v])
            else Ok(Array(done + [v]), p + 1, n)
  {
    assert SkipSpace(text, p) == p;
  }

  lemma ItemsRefused(text: Bytes, lim: ParseLimits, pos: nat, depth: nat, count: nat, done: seq<Value>)
    requires pos <= |text| && ParseValue(text, lim, pos, depth, count).Err?
    ensures ParseItems(text, lim, pos, depth, count, done).Err?
  {
  }

  lemma ItemsFitTurn(items: seq<Value>, i: nat, lim: ParseLimits, depth: nat, count: nat)
    requires i < |items|
    ensures CountItems(items, i) == Count(items[i]) + CountItems(items, i + 1)
    ensures ItemsFit(items, i, lim, depth, count) <==>
            Fits(items[i], lim, depth, count) && ItemsFit(items, i + 1, lim, depth, count + Count(items[i]))
  {
  }

  lemma ItemsEnd(items: seq<Value>, lim: ParseLimits, depth: nat, count: nat)
    ensures |ItemsFrom(items, |items|)| == 1 && CountItems(items, |items|) == 0
    ensures ItemsFit(items, |items|, lim, depth, count) <==> count <= lim.maxValues
  {
  }

  /** The element loop behind element `i`. */
  lemma ItemsStep(text: Bytes, lim: ParseLimits, pos: nat, depth: nat, count: nat, items: seq<Value>, i: nat, p: nat, n: nat)
    requires i < |items| && pos <= |text| && ParseValue(text, lim, pos, depth, count) == Ok(items[i], p, n)
    requires p < |text| && text[p] == if i + 1 == |items| then CLOSE_BRACKET else COMMA
    ensures ParseItems(text, lim, pos, depth, count, items[..i]) ==
            if i + 1 == |items| then Ok(Array(items), p + 1, n)
            else ParseItems(text, lim, p + 1, depth, n, items[..i + 1])
  {
    ItemsTurn(text, lim, pos, depth, count, items[..i], items[i], p, n);
    TakeOneMore(items, i);
    TakeAll(items);
  }

  /** Element `i` and what follows it, taken off the text. */
  lemma ItemsHead(text: Bytes, pos: nat, items: seq<Value>, i: nat) returns (start: nat, after: nat)
    requires i < |items| && At(text, pos, ItemsFrom(items, i))
    ensures start == pos + |Separator(i)| && after == start + |Canonical(items[i])|
    ensures after + |ItemsFrom(items, i + 1)| == pos + |ItemsFrom(items, i)|
    ensures At(text, start, Canonical(items[i])) && Delimited(text, after) && At(text, after, ItemsFrom(items, i + 1))
    ensures text[pos] != CLOSE_BRACKET
    ensures after < |text| && text[after] == if i + 1 == |items| then CLOSE_BRACKET else COMMA
  {
    start := pos + |Separator(i)|;
    after := start + |Canonical(items[i])|;
    AtConcat(text, pos, Separator(i), Canonical(items[i]) + ItemsFrom(items, i + 1));
    AtConcat(text, start, Canonical(items[i]), ItemsFrom(items, i + 1));
    AtByte(text, after, ItemsFrom(items, i + 1), 0);
    FirstByteNotClosing(items[i]);
    AtByte(text, start, Canonical(items[i]), 0);
    if i > 0 {
      AtByte(text, pos, Separator(i), 0);
    }
  }

  /** The element loop, standing before element `i`, reads the rest exactly, up to `end`. */
  ghost predicate ItemsRead(text: Bytes, lim: ParseLimits, start: nat, depth: nat, count: nat, items: seq<Value>, i: nat, end: nat)
    requires i < |items| && start <= |text|
  {
    var r := ParseItems(text, lim, start, depth, count, items[..i]);
    if ItemsFit(items, i, lim, depth, count) then r == Ok(Array(items), end, count + CountItems(items, i)) else r.Err?
  }

  /** Element `i` does not fit. */
  lemma ItemsStop(text: Bytes, lim: ParseLimits, start: nat, depth: nat, count: nat, items: seq<Value>, i: nat, end: nat)
    requires i < |items| && start <= |text|
    requires ParseValue(text, lim, start, depth, count).Err? && !Fits(items[i], lim, depth, count)
    ensures ItemsRead(text, lim, start, depth, count, items, i, end)
  {
    ItemsFitTurn(items, i, lim, depth, count);
    ItemsRefused(text, lim, start, depth, count, items[..i]);
  }

  /** Element `i` is the last. */
  lemma ItemsLast(text: Bytes, lim: ParseLimits, start: nat, depth: nat, count: nat, items: seq<Value>, i: nat, after: nat)
    requires i + 1 == |items| && start <= |text| && after < |text| && text[after] == CLOSE_BRACKET
    requires ParseValue(text, lim, start, depth, count) == Ok(items[i], after, count + Count(items[i]))
    requires Fits(items[i], lim, depth, count)
    ensures ItemsRead(text, lim, start, depth, count, items, i, after + 1)
  {
    ItemsStep(text, lim, start, depth, count, items, i, after, count + Count(items[i]));
    ItemsFitTurn(items, i, lim, depth, count);
    ItemsEnd(items, lim, depth, count + Count(items[i]));
  }

  /** Element `i` is followed by others. */
  lemma ItemsNext(text: Bytes, lim: ParseLimits, start: nat, depth: nat, count: nat, items: seq<Value>, i: nat, after: nat, end: nat)
    requires i + 1 < |items| && start <= |text| && after < |text| && text[after] == COMMA
    requires ParseValue(text, lim, start, depth, count) == Ok(items[i], after, count + Count(items[i]))
    requires Fits(items[i], lim, depth, count)
    requires ItemsRead(text, lim, after + 1, depth, count + Count(items[i]), items, i + 1, end)
    ensures ItemsRead(text, lim, start, depth, count, items, i, end)
  {
    ItemsStep(text, lim, start, depth, count, items, i, after, count + Count(items[i]));
    ItemsFitTurn(items, i, lim, depth, count);
  }

  /** Element `i` was read; the rest decides. */
  lemma {:induction false} ItemsRest(text: Bytes, lim: ParseLimits, start: nat, depth: nat, count: nat, items: seq<Value>, i: nat,
                                     after: nat)
    requires i < |items| && OrderedItems(items, i) && start <= |text| && Fits(items[i], lim, depth, count)
    requires ParseValue(text, lim, start, depth, count) == Ok(items[i], after, count + Count(items[i]))
    requires after < |text| && text[after] == (if i + 1 == |items| then CLOSE_BRACKET else COMMA)
    requires At(text, after, ItemsFrom(items, i + 1))
    ensures ItemsRead(text, lim, start, depth, count, items, i, after + |ItemsFrom(items, i + 1)|)
    decreases items, |items| - i, 0
  {
    if i + 1 == |items| {
      ItemsLast(text, lim, start, depth, count, items, i, after);
    } else {
      ItemsExact(text, lim, after, depth, count + Count(items[i]), items, i + 1);
      assert Separator(i + 1) == [COMMA];
      ItemsNext(text, lim, start, depth, count, items, i, after, after + |ItemsFrom(items, i + 1)|);
    }
  }

  lemma {:induction false} ItemsExact(text: Bytes, lim: ParseLimits, pos: nat, depth: nat, count: nat, items: seq<Value>, i: nat)
    requires i < |items| && OrderedItems(items, i) && At(text, pos, ItemsFrom(items, i))
    ensures pos + |Separator(i)| <= |text|
    ensures ItemsRead(text, lim, pos + |Separator(i)|, depth, count, items, i, pos + |ItemsFrom(items, i)|)
    decreases items, |items| - i, 1
  {
    var start, after := ItemsHead(text, pos, items, i);
    ValueExact(text, lim, start, depth, count, items[i]);
    if Fits(items[i], lim, depth, count) {
      ItemsRest(text, lim, start, depth, count, items, i, after);
    } else {
      ItemsStop(text, lim, start, depth, count, items, i, pos + |ItemsFrom(items, i)|);
    }
  }

  ghost predicate MembersFit(members: seq<Member>, i: nat, lim: ParseLimits, depth: nat, count: nat)
    requires i <= |members|
  {
    && count + CountMembers(members, i) <= lim.maxValues
    && AdmissibleMembers(members, i, lim, lim.maxDepth - depth)
  }

  lemma ObjectToken(text: Bytes, lim: ParseLimits, pos: nat, depth: nat, count: nat)
    requires pos + 1 < |text| && text[pos] == OPEN_BRACE && SkipSpace(text, pos + 1) == pos + 1
    requires depth <= lim.maxDepth && count + 1 <= lim.maxValues
    ensures ParseValue(text, lim, pos, depth, count) ==
            if text[pos + 1] == CLOSE_BRACE then Ok(Object([]), pos + 2, count + 1)
            else ParseMembers(text, lim, pos + 1, depth + 1, count + 1, [])
  {
    assert SkipSpace(text, pos) == pos;
  }

  lemma ObjectFits(members: seq<Member>, lim: ParseLimits, depth: nat, count: nat)
    requires depth <= lim.maxDepth
    ensures Fits(Object(members), lim, depth, count) <==> MembersFit(members, 0, lim, depth + 1, count + 1)
  {
  }

  /** What an object is read as, from what its members are read as. */
  lemma ObjectOfMembers(text: Bytes, lim: ParseLimits, pos: nat, depth: nat, count: nat, members: seq<Member>, end: nat)
    requires members != [] && pos + 1 < |text| && text[pos] == OPEN_BRACE && text[pos + 1] == QUOTE
    requires depth <= lim.maxDepth && count + 1 <= lim.maxValues
    requires MembersRead(text, lim, pos + 1, depth + 1, count + 1, members, 0, end)
    ensures var r := ParseValue(text, lim, pos, depth, count);
            var v := Object(members);
            if Fits(v, lim, depth, count) then r == Ok(v, end, count + Count(v)) else r.Err?
  {
    ObjectToken(text, lim, pos, depth, count);
    ObjectFits(members, lim, depth, count);
    assert members[..0] == [];
  }

  lemma {:induction false} ObjectExact(text: Bytes, lim: ParseLimits, pos: nat, depth: nat, count: nat, members: seq<Member>)
    requires Ascending(members, 0) && OrderedMembers(members, 0) && At(text, pos + 1, MembersFrom(members, 0))
    requires pos < |text| && text[pos] == OPEN_BRACE
    requires depth <= lim.maxDepth && count + 1 <= lim.maxValues
    ensures var r := ParseValue(text, lim, pos, depth, count);
            var v := Object(members);
            if Fits(v, lim, depth, count) then r == Ok(v, pos + |Canonical(v)|, count + Count(v)) else r.Err?
    decreases members, |members| + 2
  {
    MembersByte(text, pos + 1, members, 0);
    if members == [] {
      ObjectToken(text, lim, pos, depth, count);
    } else {
      MembersExact(text, lim, pos + 1, depth + 1, count + 1, members);
      ObjectOfMembers(text, lim, pos, depth, count, members, pos + 1 + |MembersFrom(members, 0)|);
    }
  }

  /** Key and value of a member, taken off the text. */
  lemma MemberHead(text: Bytes, pos: nat, m: Member) returns (value: nat)
    requires At(text, pos, MemberText(m))
    ensures value == pos + |Quoted(m.key)| + 1 && value + |Canonical(m.value)| == pos + |MemberText(m)|
    ensures At(text, pos, Quoted(m.key)) && At(text, value - 1, [COLON]) && At(text, value, Canonical(m.value))
  {
    value := pos + |Quoted(m.key)| + 1;
    AtConcat(text, pos, Quoted(m.key), [COLON] + Canonical(m.value));
    AtConcat(text, value - 1, [COLON], Canonical(m.value));
  }

  /** The byte a member list, or its rest, begins with. */
  lemma MembersByte(text: Bytes, pos: nat, members: seq<Member>, i: nat)
    requires i <= |members| && At(text, pos, MembersFrom(members, i))
    ensures pos < |text| && (i > 0 ==> Delimited(text, pos))
    ensures text[pos] == if i == |members| then CLOSE_BRACE else if i == 0 then QUOTE else COMMA
  {
    AtByte(text, pos, MembersFrom(members, i), 0);
    if i < |members| {
      assert MemberText(members[i])[0] == QUOTE;
    }
  }

  /** Member `i` and what follows it, taken off the text. */
  lemma MembersHead(text: Bytes, pos: nat, members: seq<Member>, i: nat) returns (start: nat, after: nat)
    requires i < |members| && At(text, pos, MembersFrom(members, i))
    ensures start == pos + |Separator(i)| && after == start + |MemberText(members[i])|
    ensures after + |MembersFrom(members, i + 1)| == pos + |MembersFrom(members, i)|
    ensures At(text, start, MemberText(members[i])) && At(text, after, MembersFrom(members, i + 1))
  {
    start := pos + |Separator(i)|;
    after := start + |MemberText(members[i])|;
    AtConcat(text, pos, Separator(i), MemberText(members[i]) + MembersFrom(members, i + 1));
    AtConcat(text, start, MemberText(members[i]), MembersFrom(members, i + 1));
  }

  lemma {:induction false} SlotAtEnd(members: seq<Member>, key: Bytes)
    requires forall k :: 0 <= k < |members| ==> Less(members[k].key, key)
    ensures Slot(members, key) == |members| && !HasKey(members, key)
  {
    if members != [] {
      SlotAtEnd(members[1..], key);
    }
    HasKeyAt(members, key);
    LessTotal(key, key);
  }

  lemma KeyExact(text: Bytes, lim: ParseLimits, pos: nat, count: nat, key: Bytes)
    requires At(text, pos, Quoted(key)) && At(text, pos + |Quoted(key)|, [COLON])
    ensures var r := ParseKey(text, lim, pos, count);
            if StringFits(key, lim) then r == Ok(key, pos + |Quoted(key)| + 1, count) else r.Err?
  {
    var colon := pos + |Quoted(key)|;
    AtByte(text, colon, [COLON], 0);
    QuotedExact(text, lim, pos, count, key);
    assert SkipSpace(text, colon) == colon;
  }

  lemma {:induction false} AscendingAt(members: seq<Member>, i: nat, j: nat)
    requires i <= j <= |members| && Ascending(members, i)
    ensures Ascending(members, j)
    decreases j - i
  {
    if i < j {
      AscendingAt(members, i + 1, j);
    }
  }

  lemma {:induction false} AscendingPair(members: seq<Member>, i: nat, j: nat)
    requires i < j < |members| && Ascending(members, 0)
    ensures Less(members[i].key, members[j].key)
    decreases j - i
  {
    AscendingAt(members, 0, j);
    if i + 1 < j {
      AscendingPair(members, i, j - 1);
      LessTransitive(members[i].key, members[j - 1].key, members[j].key);
    }
  }

  lemma {:induction false} MemberExact(text: Bytes, lim: ParseLimits, pos: nat, depth: nat, count: nat, m: Member)
    requires Ordered(m.value) && At(text, pos, MemberText(m)) && Delimited(text, pos + |MemberText(m)|)
    ensures var r := ParseMember(text, lim, pos, depth, count);
            if Fits(m.value, lim, depth, count) && StringFits(m.key, lim)
            then r == Ok(m, pos + |MemberText(m)|, count + Count(m.value))
            else r.Err?
    decreases m, 1
  {
    var value := MemberHead(text, pos, m);
    QuoteAt(text, pos, m.key);
    assert SkipSpace(text, pos) == pos;
    KeyExact(text, lim, pos, count, m.key);
    ValueExact(text, lim, value, depth, count, m.value);
  }

  /** One turn of the member loop, for a key not met before. */
  lemma MembersTurn(text: Bytes, lim: ParseLimits, pos: nat, depth: nat, count: nat, done: seq<Member>, m: Member, p: nat, n: nat)
    requires pos <= |text| && ParseMember(text, lim, pos, depth, count) == Ok(m, p, n) && !HasKey(done, m.key)
    requires p < |text| && (text[p] == CLOSE_BRACE || text[p] == COMMA)
    ensures ParseMembers(text, lim, pos, depth, count, done) ==
            if text[p] == COMMA then ParseMembers(text, lim, p + 1, depth, n, Insert(done, m))
            else Ok(Object(Insert(done, m)), p + 1, n)
  {
    assert SkipSpace(text, p) == p;
  }

  lemma MembersRefused(text: Bytes, lim: ParseLimits, pos: nat, depth: nat, count: nat, done: seq<Member>)
    requires pos <= |text| && ParseMember(text, lim, pos, depth, count).Err?
    ensures ParseMembers(text, lim, pos, depth, count, done).Err?
  {
  }

  lemma MembersFitTurn(members: seq<Member>, i: nat, lim: ParseLimits, depth: nat, count: nat)
    requires i < |members|
    ensures CountMembers(members, i) == Count(members[i].value) + CountMembers(members, i + 1)
    ensures MembersFit(members, i, lim, depth, count) <==>
            && Fits(members[i].value, lim, depth, count) && StringFits(members[i].key, lim)
            && MembersFit(members, i + 1, lim, depth, count + Count(members[i].value))
  {
  }

  lemma MembersEnd(members: seq<Member>, lim: ParseLimits, depth: nat, count: nat)
    ensures |MembersFrom(members, |members|)| == 1 && CountMembers(members, |members|) == 0
    ensures MembersFit(members, |members|, lim, depth, count) <==> count <= lim.maxValues
  {
  }

  lemma InsertLast(members: seq<Member>, i: nat)
    requires Ascending(members, 0) && i < |members|
    ensures !HasKey(members[..i], members[i].key) && Insert(members[..i], members[i]) == members[..i + 1]
  {
    forall k | 0 <= k < i ensures Less(members[k].key, members[i].key) {
      AscendingPair(members, k, i);
    }
    SlotAtEnd(members[..i], members[i].key);
  }

  /** The member loop behind member `i`. */
  lemma MembersStep(text: Bytes, lim: ParseLimits, pos: nat, depth: nat, count: nat, members: seq<Member>, i: nat, p: nat, n: nat)
    requires i < |members| && Ascending(members, 0)
    requires pos <= |text| && ParseMember(text, lim, pos, depth, count) == Ok(members[i], p, n)
    requires p < |text| && text[p] == if i + 1 == |members| then CLOSE_BRACE else COMMA
    ensures ParseMembers(text, lim, pos, depth, count, members[..i]) ==
            if i + 1 == |members| then Ok(Object(members), p + 1, n)
            else ParseMembers(text, lim, p + 1, depth, n, members[..i + 1])
  {
    InsertLast(members, i);
    MembersTurn(text, lim, pos, depth, count, members[..i], members[i], p, n);
    TakeAll(members);
  }

  /** The member loop, standing before member `i`, reads the rest exactly, up to `end`. */
  ghost predicate MembersRead(text: Bytes, lim: ParseLimits, start: nat, depth: nat, count: nat, members: seq<Member>, i: nat, end: nat)
    requires i < |members| && start <= |text|
  {
    var r := ParseMembers(text, lim, start, depth, count, members[..i]);
    if MembersFit(members, i, lim, depth, count) then r == Ok(Object(members), end, count + CountMembers(members, i)) else r.Err?
  }

  /** Member `i` does not fit. */
  lemma MembersStop(text: Bytes, lim: ParseLimits, start: nat, depth: nat, count: nat, members: seq<Member>, i: nat, end: nat)
    requires i < |members| && start <= |text|
    requires ParseMember(text, lim, start, depth, count).Err?
    requires !Fits(members[i].value, lim, depth, count) || !StringFits(members[i].key, lim)
    ensures MembersRead(text, lim, start, depth, count, members, i, end)
  {
    MembersFitTurn(members, i, lim, depth, count);
    MembersRefused(text, lim, start, depth, count, members[..i]);
  }

  /** Member `i` is the last. */
  lemma MembersLast(text: Bytes, lim: ParseLimits, start: nat, depth: nat, count: nat, members: seq<Member>, i: nat, after: nat)
    requires i + 1 == |members| && Ascending(members, 0)
    requires start <= |text| && after < |text| && text[after] == CLOSE_BRACE
    requires ParseMember(text, lim, start, depth, count) == Ok(members[i], after, count + Count(members[i].value))
    requires Fits(members[i].value, lim, depth, count) && StringFits(members[i].key, lim)
    ensures MembersRead(text, lim, start, depth, count, members, i, after + 1)
  {
    MembersStep(text, lim, start, depth, count, members, i, after, count + Count(members[i].value));
    MembersFitTurn(members, i, lim, depth, count);
    MembersEnd(members, lim, depth, count + Count(members[i].value));
  }

  /** Member `i` is followed by others. */
  lemma MembersNext(text: Bytes, lim: ParseLimits, start: nat, depth: nat, count: nat, members: seq<Member>, i: nat, after: nat, end: nat)
    requires i + 1 < |members| && Ascending(members, 0)
    requires start <= |text| && after < |text| && text[after] == COMMA
    requires ParseMember(text, lim, start, depth, count) == Ok(members[i], after, count + Count(members[i].value))
    requires Fits(members[i].value, lim, depth, count) && StringFits(members[i].key, lim)
    requires MembersRead(text, lim, after + 1, depth, count + Count(members[i].value), members, i + 1, end)
    ensures MembersRead(text, lim, start, depth, count, members, i, end)
  {
    MembersStep(text, lim, start, depth, count, members, i, after, count + Count(members[i].value));
    MembersFitTurn(members, i, lim, depth, count);
  }

  /** One turn: member `i` is read, and the rest as `MembersRead` says. */
  lemma {:induction false} MembersAdvance(text: Bytes, lim: ParseLimits, start: nat, depth: nat, count: nat, members: seq<Member>,
                                         i: nat, after: nat, end: nat)
    requires i < |members| && Ascending(members, 0) && Ordered(members[i].value)
    requires At(text, start, MemberText(members[i])) && after == start + |MemberText(members[i])|
    requires At(text, after, MembersFrom(members, i + 1)) && end == after + |MembersFrom(members, i + 1)|
    requires i + 1 < |members| ==>
             after < |text| && MembersRead(text, lim, after + 1, depth, count + Count(members[i].value), members, i + 1, end)
    ensures MembersRead(text, lim, start, depth, count, members, i, end)
    decreases members, 0
  {
    MembersByte(text, after, members, i + 1);
    MemberExact(text, lim, start, depth, count, members[i]);
    if !Fits(members[i].value, lim, depth, count) || !StringFits(members[i].key, lim) {
      MembersStop(text, lim, start, depth, count, members, i, end);
    } else if i + 1 == |members| {
      MembersLast(text, lim, start, depth, count, members, i, after);
    } else {
      MembersNext(text, lim, start, depth, count, members, i, after, end);
    }
  }

  /** Member `i` at `start`, up to `after`, and the rest up to `end`. */
  lemma {:induction false} MembersOnward(text: Bytes, lim: ParseLimits, start: nat, depth: nat, count: nat, members: seq<Member>,
                                        i: nat, after: nat, end: nat)
    requires i < |members| && Ascending(members, 0) && OrderedMembers(members, i)
    requires At(text, start, MemberText(members[i])) && after == start + |MemberText(members[i])|
    requires At(text, after, MembersFrom(members, i + 1)) && end == after + |MembersFrom(members, i + 1)|
    ensures MembersRead(text, lim, start, depth, count, members, i, end)
    decreases members, |members| - i
  {
    if i + 1 < |members| {
      var start', after' := MembersHead(text, after, members, i + 1);
      assert start' == after + 1;
      MembersOnward(text, lim, after + 1, depth, count + Count(members[i].value), members, i + 1, after', end);
    }
    MembersAdvance(text, lim, start, depth, count, members, i, after, end);
  }

  lemma MembersExact(text: Bytes, lim: ParseLimits, pos: nat, depth: nat, count: nat, members: seq<Member>)
    requires 0 < |members| && Ascending(members, 0) && OrderedMembers(members, 0) && At(text, pos, MembersFrom(members, 0))
    ensures MembersRead(text, lim, pos, depth, count, members, 0, pos + |MembersFrom(members, 0)|)
    decreases members, |members| + 1
  {
    var start, after := MembersHead(text, pos, members, 0);
    assert start == pos;
    MembersOnward(text, lim, pos, depth, count, members, 0, after, pos + |MembersFrom(members, 0)|);
  }

  /** The parser accepts a canonical text exactly when value and length are within limits, and returns the value. */
  lemma ParseOfCanonical(v: Value, lim: ParseLimits)
    requires Ordered(v)
    ensures var r := Parse(Canonical(v), lim);
            if |Canonical(v)| <= lim.maxBytes && Fits(v, lim, 0, 0)
            then r == Ok(v, |Canonical(v)|, Count(v))
            else r.Err?
  {
    var text := Canonical(v);
    AtWhole(text);
    NoSpaceAt(text, 0, v);
    ValueExact(text, lim, 0, 0, 0, v);
  }
}
