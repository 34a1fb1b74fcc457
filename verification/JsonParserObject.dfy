/**
  * The parser as the source has it: an object whose methods advance `position` and `values`
  * over a fixed text. Each method is proved to compute the reading of module `JsonParser`
  * at the position it starts from, refusals included.
  */
module JsonParserObject {
  import opened Bytes
  import opened Utf8
  import opened Json
  import opened JsonParser

  datatype Result<+T> = Success(value: T) | Failure(error: ParseError)

  /** A method's result and the object's new fields are what `spec` says. */
  ghost predicate Agrees<T>(r: Result<T>, spec: Parsed<T>, position: nat, values: nat) {
    match r
    case Success(v) => spec == Ok(v, position, values)
    case Failure(e) => spec == Err(e)
  }

  lemma {:induction false} DigitPrefix(text: Bytes, start: nat, mid: nat, end: nat)
    requires start <= mid <= end <= |text|
    requires forall k :: start <= k < end ==> IsDigit(text[k])
    ensures DecimalValue(text[start..mid]) <= DecimalValue(text[start..end])
    decreases end - mid
  {
    if mid < end {
      DigitPrefix(text, start, mid, end - 1);
      assert text[start..end][..end - 1 - start] == text[start..end - 1];
    }
  }

  lemma DigitAppended(text: Bytes, start: nat, p: nat)
    requires start <= p < |text| && forall k :: start <= k <= p ==> IsDigit(text[k])
    ensures DecimalValue(text[start..p + 1]) == DecimalValue(text[start..p]) * 10 + (text[p] - 0x30)
  {
    assert text[start..p + 1][..p - start] == text[start..p];
  }

  /** The overflow test, made before multiplying. */
  lemma OverflowExact(result: uint64, digit: nat)
    requires digit < 10
    ensures result > (MAX_UINT64 - digit) / 10 <==> result * 10 + digit > MAX_UINT64
  {
  }

  class Parser {
    const text: Bytes
    const limits: ParseLimits
    var position: nat
    var values: nat

    constructor (text: Bytes, limits: ParseLimits)
      ensures this.text == text && this.limits == limits
      ensures position == 0 && values == 0
    {
      this.text := text;
      this.limits := limits;
      position := 0;
      values := 0;
    }

    ghost predicate Valid()
      reads this
    {
      position <= |text|
    }

    method SkipSpaces()
      requires Valid()
      modifies this`position
      ensures Valid() && position == SkipSpace(text, old(position))
    {
      while position < |text| && IsSpace(text[position])
        invariant Valid() && SkipSpace(text, position) == SkipSpace(text, old(position))
      {
        position := position + 1;
      }
    }

    method Consume(expected: byte) returns (found: bool)
      requires Valid()
      modifies this`position
      ensures Valid() && found == (old(position) < |text| && text[old(position)] == expected)
      ensures position == if found then old(position) + 1 else old(position)
    {
      if position < |text| && text[position] == expected {
        position := position + 1;
        return true;
      }
      return false;
    }

    method Require(expected: byte) returns (found: bool)
      requires Valid()
      modifies this`position
      ensures Valid()
      ensures var p := SkipSpace(text, old(position));
              found == (p < |text| && text[p] == expected) && (found ==> position == p + 1)
    {
      SkipSpaces();
      found := Consume(expected);
    }

    method Literal(token: Bytes, v: Value) returns (r: Result<Value>)
      requires Valid() && token != []
      modifies this`position
      ensures Valid() && Agrees(r, ParseLiteral(text, old(position), values, token, v), position, values)
    {
      if position + |token| > |text| || text[position..position + |token|] != token {
        AtSliceIffHere(token);
        return Failure(BadLiteral);
      }
      AtSliceIffHere(token);
      position := position + |token|;
      return Success(v);
    }

    lemma {:induction false} AtSliceIffHere(token: Bytes)
      ensures At(text, position, token) <==>
              position + |token| <= |text| && text[position..position + |token|] == token
    {
      if position + |token| <= |text| {
        AtSlice(text, position, token);
      }
    }

    /** The digit loop: the number denoted, unless it passes 64 bits. */
    method Digits() returns (r: Result<uint64>)
      requires position < |text| && IsDigit(text[position])
      modifies this`position
      ensures Valid()
      ensures var end := DigitsEnd(text, old(position));
              var n := DecimalValue(text[old(position)..end]);
              if n > MAX_UINT64 then r == Failure(IntegerOverflow) else r == Success(n) && position == end
    {
      ghost var start := position;
      ghost var end := DigitsEnd(text, start);
      var result: uint64 := 0;
      assert text[start..start] == [];
      while position < |text| && IsDigit(text[position])
        invariant start <= position <= end && DigitsEnd(text, position) == end
        invariant result == DecimalValue(text[start..position])
      {
        var digit := text[position] - 0x30;
        DigitAppended(text, start, position);
        OverflowExact(result, digit);
        if result > (MAX_UINT64 - digit) / 10 {
          DigitPrefix(text, start, position + 1, end);
          return Failure(IntegerOverflow);
        }
        result := result * 10 + digit;
        position := position + 1;
      }
      return Success(result);
    }

    method Number() returns (r: Result<Value>)
      requires position < |text| && IsDigit(text[position])
      modifies this`position
      ensures Valid() && Agrees(r, ParseNumber(text, old(position), values), position, values)
    {
      if text[position] == 0x30 && position + 1 < |text| && IsDigit(text[position + 1]) {
        return Failure(LeadingZero);
      }
      var result := Digits();
      if result.Failure? {
        return Failure(result.error);
      }
      if position < |text| && (text[position] == 0x2E || text[position] == 0x65 || text[position] == 0x45) {
        return Failure(FloatingPoint);
      }
      return Success(Unsigned(result.value));
    }

    /** Four hexadecimal digits. */
    method UnicodeEscape() returns (r: Result<nat>)
      requires Valid()
      modifies this`position
      ensures Valid()
      ensures r == if HexAt(text, old(position)) then Success(HexCode(text, old(position)))
                   else Failure(HexError(text, old(position)))
      ensures r.Success? ==> position == old(position) + 4
    {
      if position + 4 > |text| {
        return Failure(TruncatedUnicode);
      }
      ghost var start := position;
      var code, index := 0, 0;
      while index < 4
        invariant 0 <= index <= 4 && position == start + index
        invariant forall k :: start <= k < position ==> IsHex(text[k])
        invariant index == 0 ==> code == 0
        invariant index == 1 ==> code == HexValue(text[start])
        invariant index == 2 ==> code == HexValue(text[start]) * 16 + HexValue(text[start + 1])
        invariant index == 3 ==> code == (HexValue(text[start]) * 16 + HexValue(text[start + 1])) * 16 + HexValue(text[start + 2])
        invariant index == 4 ==> HexAt(text, start) && code == HexCode(text, start)
      {
        if !IsHex(text[position]) {
          return Failure(BadHexDigit);
        }
        code := code * 16 + HexValue(text[position]);
        position := position + 1;
        index := index + 1;
      }
      return Success(code);
    }

    /** A `\u` escape, the position being behind the `u`. */
    method UnicodeUnit(prefix: Bytes) returns (r: Result<Bytes>)
      requires Valid()
      modifies this`position
      ensures Valid()
      ensures match UnicodeStep(text, old(position))
              case Emit(bytes, next) => r == Success(prefix + bytes) && position == next
              case Bad(e) => r == Failure(e)
              case Close => false
    {
      var high := UnicodeEscape();
      if high.Failure? {
        return Failure(high.error);
      }
      var codepoint := high.value;
      if codepoint >= 0xD800 && codepoint <= 0xDBFF {
        if position + 2 > |text| || text[position] != BACKSLASH || text[position + 1] != 0x75 {
          return Failure(MissingLowSurrogate);
        }
        position := position + 2;
        var low := UnicodeEscape();
        if low.Failure? {
          return Failure(low.error);
        }
        if low.value < 0xDC00 || low.value > 0xDFFF {
          return Failure(BadLowSurrogate);
        }
        codepoint := 0x10000 + (codepoint - 0xD800) * 0x400 + (low.value - 0xDC00);
      } else if codepoint >= 0xDC00 && codepoint <= 0xDFFF {
        return Failure(UnpairedLowSurrogate);
      }
      return Success(prefix + Encode(codepoint));
    }

    /** One turn of the string loop at a byte that is not the closing quote. */
    method StringUnit(result: Bytes) returns (r: Result<Bytes>)
      requires position < |text| && text[position] != QUOTE
      modifies this`position
      ensures Valid()
      ensures match Step(text, old(position))
              case Emit(bytes, next) => r == Success(result + bytes) && position == next
              case Bad(e) => r == Failure(e)
              case Close => false
    {
      var ch := text[position];
      position := position + 1;
      if ch < 0x20 {
        return Failure(ControlByte);
      }
      if ch != BACKSLASH {
        return Success(result + [ch]);
      }
      if position >= |text| {
        return Failure(TruncatedEscape);
      }
      var escaped := text[position];
      position := position + 1;
      var short := ShortEscape(escaped);
      if short.Some? {
        return Success(result + [short.value]);
      } else if escaped == 0x75 {
        r := UnicodeUnit(result);
        return;
      }
      return Failure(UnknownEscape);
    }

    method StringLiteral() returns (r: Result<Bytes>)
      requires position < |text|
      modifies this`position
      ensures Valid()
      ensures Agrees(r, ParseString(text, limits, old(position) + 1, values, []), position, values)
    {
      position := position + 1;
      var result: Bytes := [];
      ghost var spec := ParseString(text, limits, position, values, []);
      while position < |text|
        invariant Valid()
        invariant ParseString(text, limits, position, values, result) == spec
        decreases |text| - position
      {
        if text[position] == QUOTE {
          position := position + 1;
          if |result| > limits.maxStringBytes {
            return Failure(StringBudget);
          }
          var valid := ValidUtf8(result);
          if !valid {
            return Failure(NotUtf8);
          }
          return Success(result);
        }
        ghost var before, prefix := position, result;
        var unit := StringUnit(result);
        if unit.Failure? {
          return Failure(unit.error);
        }
        result := unit.value;
        assert Step(text, before).Emit? && result == prefix + Step(text, before).bytes;
      }
      return Failure(Unterminated);
    }

    method ReadValue(depth: nat) returns (r: Result<Value>)
      requires Valid()
      modifies this
      ensures Valid()
      ensures Agrees(r, ParseValue(text, limits, old(position), depth, old(values)), position, values)
      decreases |text| - position, 1
    {
      if depth > limits.maxDepth {
        return Failure(DepthBudget);
      }
      values := values + 1;
      if values > limits.maxValues {
        return Failure(ValueBudget);
      }
      SkipSpaces();
      if position >= |text| {
        return Failure(Truncated);
      }
      r := ReadToken(depth);
    }

    method ReadToken(depth: nat) returns (r: Result<Value>)
      requires position < |text|
      modifies this
      ensures Valid()
      ensures Agrees(r, ParseToken(text, limits, old(position), depth, old(values)), position, values)
      decreases |text| - position, 0
    {
      var ch := text[position];
      if ch == 0x6E {
        r := Literal(NULL_TEXT, Null);
      } else if ch == 0x74 {
        r := Literal(TRUE_TEXT, Boolean(true));
      } else if ch == 0x66 {
        r := Literal(FALSE_TEXT, Boolean(false));
      } else if ch == QUOTE {
        var s := StringLiteral();
        r := if s.Success? then Success(String(s.value)) else Failure(s.error);
      } else if ch == OPEN_BRACKET {
        position := position + 1;
        SkipSpaces();
        r := ReadItems(depth + 1);
      } else if ch == OPEN_BRACE {
        position := position + 1;
        SkipSpaces();
        r := ReadMembers(depth + 1);
      } else if IsDigit(ch) {
        r := Number();
      } else {
        r := Failure(UnsupportedToken);
      }
    }

    /** The rest of `array`, behind the opening bracket and the space after it. */
    method ReadItems(depth: nat) returns (r: Result<Value>)
      requires Valid()
      modifies this
      ensures Valid()
      ensures Agrees(r,
                     if old(position) < |text| && text[old(position)] == CLOSE_BRACKET
                     then Ok(Array([]), old(position) + 1, old(values))
                     else ParseItems(text, limits, old(position), depth, old(values), []),
                     position, values)
      decreases |text| - position, 2
    {
      var result: seq<Value> := [];
      var closed := Consume(CLOSE_BRACKET);
      if closed {
        return Success(Array(result));
      }
      ghost var spec := ParseItems(text, limits, position, depth, values, []);
      while true
        invariant old(position) <= position <= |text|
        invariant ParseItems(text, limits, position, depth, values, result) == spec
        decreases |text| - position
      {
        ghost var p, n := position, values;
        var item := ReadValue(depth);
        if item.Failure? {
          return Failure(item.error);
        }
        assert ParseValue(text, limits, p, depth, n) == Ok(item.value, position, values);
        result := result + [item.value];
        SkipSpaces();
        closed := Consume(CLOSE_BRACKET);
        if closed {
          return Success(Array(result));
        }
        assert SkipSpace(text, position) == position;
        var comma := Require(COMMA);
        if !comma {
          return Failure(BadPunctuation);
        }
      }
      assert false;
    }

    /** A key and its colon. */
    method ReadKey() returns (r: Result<Bytes>)
      requires Valid()
      modifies this`position
      ensures Valid() && Agrees(r, ParseKey(text, limits, SkipSpace(text, old(position)), values), position, values)
    {
      SkipSpaces();
      if position >= |text| || text[position] != QUOTE {
        return Failure(BadKey);
      }
      r := StringLiteral();
      if r.Failure? {
        return;
      }
      var colon := Require(COLON);
      if !colon {
        return Failure(BadPunctuation);
      }
    }

    /** A key, its colon and its value. */
    method ReadMember(depth: nat) returns (r: Result<Member>)
      requires Valid()
      modifies this
      ensures Valid() && Agrees(r, ParseMember(text, limits, old(position), depth, old(values)), position, values)
      decreases |text| - position, 1
    {
      ghost var start := SkipSpace(text, position);
      assert ParseMember(text, limits, position, depth, values) == ParseMemberAt(text, limits, start, depth, values);
      var key := ReadKey();
      if key.Failure? {
        return Failure(key.error);
      }
      var item := ReadValue(depth);
      if item.Failure? {
        return Failure(item.error);
      }
      r := Success(Member(key.value, item.value));
    }

    /** The rest of `object`, behind the opening brace and the space after it. */
    method ReadMembers(depth: nat) returns (r: Result<Value>)
      requires Valid()
      modifies this
      ensures Valid()
      ensures Agrees(r,
                     if old(position) < |text| && text[old(position)] == CLOSE_BRACE
                     then Ok(Object([]), old(position) + 1, old(values))
                     else ParseMembers(text, limits, old(position), depth, old(values), []),
                     position, values)
      decreases |text| - position, 2
    {
      var result: seq<Member> := [];
      var closed := Consume(CLOSE_BRACE);
      if closed {
        return Success(Object(result));
      }
      ghost var spec := ParseMembers(text, limits, position, depth, values, []);
      while true
        invariant old(position) <= position <= |text|
        invariant ParseMembers(text, limits, position, depth, values, result) == spec
        decreases |text| - position
      {
        var m := ReadMember(depth);
        if m.Failure? {
          return Failure(m.error);
        }
        if HasKey(result, m.value.key) {
          return Failure(DuplicateKey);
        }
        result := Insert(result, m.value);
        SkipSpaces();
        closed := Consume(CLOSE_BRACE);
        if closed {
          return Success(Object(result));
        }
        assert SkipSpace(text, position) == position;
        var comma := Require(COMMA);
        if !comma {
          return Failure(BadPunctuation);
        }
      }
      assert false;
    }

    method Run() returns (r: Result<Value>)
      requires position == 0 && values == 0
      modifies this
      ensures |text| <= limits.maxBytes ==> Agrees(r, Parse(text, limits), position, values)
    {
      SkipSpaces();
      r := ReadValue(0);
      if r.Failure? {
        return;
      }
      SkipSpaces();
      if position != |text| {
        return Failure(TrailingContent);
      }
    }
  }

  /** `parse`: the constructor's byte budget, then the run. */
  method ParseText(text: Bytes, limits: ParseLimits) returns (r: Result<Value>)
    ensures match r
            case Success(v) => Parse(text, limits).Ok? && Parse(text, limits).value == v
            case Failure(e) => Parse(text, limits) == Err(e)
  {
    if |text| > limits.maxBytes {
      return Failure(ByteBudget);
    }
    var parser := new Parser(text, limits);
    r := parser.Run();
  }
}
