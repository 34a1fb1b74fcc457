/** The grammar of the bounded parser: what is read at a given offset of the text, or why reading stops there. */
module JsonParser {
  import opened Bytes
  import opened Wrappers
  import opened Utf8
  import opened Json

  datatype ParseError =
    | ByteBudget | DepthBudget | ValueBudget | StringBudget
    | Truncated | TrailingContent | UnsupportedToken | BadLiteral
    | LeadingZero | IntegerOverflow | FloatingPoint
    | ControlByte | TruncatedEscape | UnknownEscape | TruncatedUnicode | BadHexDigit
    | MissingLowSurrogate | BadLowSurrogate | UnpairedLowSurrogate | NotUtf8 | Unterminated
    | BadKey | DuplicateKey | BadPunctuation

  /** A value read, the offset behind it and the running value count; or why reading stopped. */
  datatype Parsed<+T> = Ok(value: T, pos: nat, count: nat) | Err(error: ParseError)

  // ----- space, literals and numbers -----

  predicate IsSpace(b: byte) {
    b == 0x20 || b == 0x09 || b == 0x0D || b == 0x0A
  }

  function SkipSpace(text: Bytes, pos: nat): (r: nat)
    requires pos <= |text|
    ensures pos <= r <= |text|
    ensures r == |text| || !IsSpace(text[r])
    decreases |text| - pos
  {
    if pos < |text| && IsSpace(text[pos]) then SkipSpace(text, pos + 1) else pos
  }

  function DigitsEnd(text: Bytes, pos: nat): (r: nat)
    requires pos <= |text|
    ensures pos <= r <= |text|
    ensures forall k :: pos <= k < r ==> IsDigit(text[k])
    ensures r == |text| || !IsDigit(text[r])
    decreases |text| - pos
  {
    if pos < |text| && IsDigit(text[pos]) then DigitsEnd(text, pos + 1) else pos
  }

  predicate AllDigits(s: Bytes) {
    forall k :: 0 <= k < |s| ==> IsDigit(s[k])
  }

  /** The number a digit string denotes. */
  function DecimalValue(s: Bytes): nat
    requires AllDigits(s)
  {
    if s == [] then 0 else DecimalValue(s[..|s| - 1]) * 10 + (s[|s| - 1] - 0x30)
  }

  /** An unsigned decimal integer below 2^64 without leading zeros, fraction or exponent. */
  function ParseNumber(text: Bytes, pos: nat, count: nat): (r: Parsed<Value>)
    requires pos < |text| && IsDigit(text[pos])
    ensures r.Ok? ==> pos < r.pos <= |text|
  {
    if text[pos] == 0x30 && pos + 1 < |text| && IsDigit(text[pos + 1]) then Err(LeadingZero)
    else
      var end := DigitsEnd(text, pos);
      var n := DecimalValue(text[pos..end]);
      if n > MAX_UINT64 then Err(IntegerOverflow)
      else if end < |text| && (text[end] == 0x2E || text[end] == 0x65 || text[end] == 0x45) then Err(FloatingPoint)
      else Ok(Unsigned(n), end, count)
  }

  // ----- strings -----

  datatype StringStep = Close | Emit(bytes: Bytes, next: nat) | Bad(error: ParseError)

  predicate IsHex(b: byte) {
    0x30 <= b <= 0x39 || 0x61 <= b <= 0x66 || 0x41 <= b <= 0x46
  }

  function HexValue(b: byte): (r: nat)
    requires IsHex(b)
    ensures r < 16
  {
    if b <= 0x39 then b - 0x30 else if b >= 0x61 then b - 0x57 else b - 0x37
  }

  /** Four hexadecimal digits at `pos`. */
  predicate HexAt(text: Bytes, pos: nat) {
    pos + 4 <= |text| && IsHex(text[pos]) && IsHex(text[pos + 1]) && IsHex(text[pos + 2]) && IsHex(text[pos + 3])
  }

  function HexCode(text: Bytes, pos: nat): (r: nat)
    requires HexAt(text, pos)
    ensures r <= 0xFFFF
  {
    ((HexValue(text[pos]) * 16 + HexValue(text[pos + 1])) * 16 + HexValue(text[pos + 2])) * 16 + HexValue(text[pos + 3])
  }

  /** Why four digits could not be read. */
  function HexError(text: Bytes, pos: nat): ParseError {
    if pos + 4 > |text| then TruncatedUnicode else BadHexDigit
  }

  /** A `\u` escape whose digits start at `pos`, with the low surrogate a high one demands. */
  function UnicodeStep(text: Bytes, pos: nat): (r: StringStep)
    ensures r.Emit? ==> pos < r.next <= |text|
  {
    if !HexAt(text, pos) then Bad(HexError(text, pos))
    else
      var code := HexCode(text, pos);
      if 0xD800 <= code <= 0xDBFF then
        if pos + 6 > |text| || text[pos + 4] != BACKSLASH || text[pos + 5] != 0x75 then Bad(MissingLowSurrogate)
        else if !HexAt(text, pos + 6) then Bad(HexError(text, pos + 6))
        else
          var low := HexCode(text, pos + 6);
          if low < 0xDC00 || low > 0xDFFF then Bad(BadLowSurrogate)
          else Emit(Encode(0x10000 + (code - 0xD800) * 0x400 + (low - 0xDC00)), pos + 10)
      else if 0xDC00 <= code <= 0xDFFF then Bad(UnpairedLowSurrogate)
      else Emit(Encode(code), pos + 4)
  }

  /** The escapes that stand for one byte. */
  function ShortEscape(escaped: byte): Option<byte> {
    if escaped == QUOTE || escaped == BACKSLASH || escaped == 0x2F then Some(escaped)
    else if escaped == 0x62 then Some(0x08)
    else if escaped == 0x66 then Some(0x0C)
    else if escaped == 0x6E then Some(0x0A)
    else if escaped == 0x72 then Some(0x0D)
    else if escaped == 0x74 then Some(0x09)
    else None
  }

  /** What one turn of the string loop does with the byte or escape at `pos`. */
  function Step(text: Bytes, pos: nat): (r: StringStep)
    requires pos < |text|
    ensures r.Emit? ==> pos < r.next <= |text|
  {
    var ch := text[pos];
    if ch == QUOTE then Close
    else if ch < 0x20 then Bad(ControlByte)
    else if ch != BACKSLASH then Emit([ch], pos + 1)
    else if pos + 1 >= |text| then Bad(TruncatedEscape)
    else
      match ShortEscape(text[pos + 1])
      case Some(b) => Emit([b], pos + 2)
      case None => if text[pos + 1] == 0x75 then UnicodeStep(text, pos + 2) else Bad(UnknownEscape)
  }

  /** The rest of a string literal, `result` being what was decoded before `pos`. */
  ghost function ParseString(text: Bytes, lim: ParseLimits, pos: nat, count: nat, result: Bytes): (r: Parsed<Bytes>)
    requires pos <= |text|
    ensures r.Ok? ==> pos < r.pos <= |text|
    decreases |text| - pos
  {
    if pos == |text| then Err(Unterminated)
    else
      match Step(text, pos)
      case Bad(e) => Err(e)
      case Emit(bytes, next) => ParseString(text, lim, next, count, result + bytes)
      case Close =>
        if |result| > lim.maxStringBytes then Err(StringBudget)
        else if !IsUtf8(result) then Err(NotUtf8)
        else Ok(result, pos + 1, count)
  }

  // ----- values -----

  /** Index at which `key` is, or would be inserted, in an ascending member list. */
  function Slot(members: seq<Member>, key: Bytes): (i: nat)
    ensures i <= |members|
  {
    if members == [] || !Less(members[0].key, key) then 0 else 1 + Slot(members[1..], key)
  }

  predicate HasKey(members: seq<Member>, key: Bytes) {
    members != [] && (members[0].key == key || HasKey(members[1..], key))
  }

  lemma {:induction false} HasKeyAt(members: seq<Member>, key: Bytes)
    ensures HasKey(members, key) <==> exists i :: 0 <= i < |members| && members[i].key == key
  {
    if members != [] {
      HasKeyAt(members[1..], key);
      if HasKey(members[1..], key) {
        var i :| 0 <= i < |members[1..]| && members[1..][i].key == key;
        assert members[i + 1].key == key;
      } else {
        forall i | 0 < i < |members| ensures members[i].key != key {
          assert members[1..][i - 1].key == members[i].key;
        }
      }
    }
  }

  /** `std::map::emplace` of a new key. */
  function Insert(members: seq<Member>, m: Member): seq<Member> {
    var i := Slot(members, m.key);
    members[..i] + [m] + members[i..]
  }

  ghost function ParseValue(text: Bytes, lim: ParseLimits, pos: nat, depth: nat, count: nat): (r: Parsed<Value>)
    requires pos <= |text|
    ensures r.Ok? ==> pos < r.pos <= |text|
    decreases |text| - pos, 1
  {
    if depth > lim.maxDepth then Err(DepthBudget)
    else if count + 1 > lim.maxValues then Err(ValueBudget)
    else if SkipSpace(text, pos) == |text| then Err(Truncated)
    else ParseToken(text, lim, SkipSpace(text, pos), depth, count + 1)
  }

  /** The value whose first byte is at `pos`, already counted. */
  ghost function ParseToken(text: Bytes, lim: ParseLimits, pos: nat, depth: nat, count: nat): (r: Parsed<Value>)
    requires pos < |text|
    ensures r.Ok? ==> pos < r.pos <= |text|
    decreases |text| - pos, 0
  {
    var ch := text[pos];
    if ch == 0x6E then ParseLiteral(text, pos, count, NULL_TEXT, Null)
    else if ch == 0x74 then ParseLiteral(text, pos, count, TRUE_TEXT, Boolean(true))
    else if ch == 0x66 then ParseLiteral(text, pos, count, FALSE_TEXT, Boolean(false))
    else if ch == QUOTE then
      match ParseString(text, lim, pos + 1, count, [])
      case Ok(s, q, n) => Ok(String(s), q, n)
      case Err(e) => Err(e)
    else if ch == OPEN_BRACKET then
      var q := SkipSpace(text, pos + 1);
      if q < |text| && text[q] == CLOSE_BRACKET then Ok(Array([]), q + 1, count)
      else ParseItems(text, lim, q, depth + 1, count, [])
    else if ch == OPEN_BRACE then
      var q := SkipSpace(text, pos + 1);
      if q < |text| && text[q] == CLOSE_BRACE then Ok(Object([]), q + 1, count)
      else ParseMembers(text, lim, q, depth + 1, count, [])
    else if IsDigit(ch) then ParseNumber(text, pos, count)
    else Err(UnsupportedToken)
  }

  function ParseLiteral(text: Bytes, pos: nat, count: nat, token: Bytes, v: Value): (r: Parsed<Value>)
    requires token != []
    ensures r.Ok? ==> pos < r.pos <= |text|
  {
    if At(text, pos, token) then Ok(v, pos + |token|, count) else Err(BadLiteral)
  }

  /** Array elements from `pos`, after `result`; the closing bracket included. */
  ghost function ParseItems(text: Bytes, lim: ParseLimits, pos: nat, depth: nat, count: nat, result: seq<Value>)
    : (r: Parsed<Value>)
    requires pos <= |text|
    ensures r.Ok? ==> pos < r.pos <= |text|
    decreases |text| - pos, 2
  {
    match ParseValue(text, lim, pos, depth, count)
    case Err(e) => Err(e)
    case Ok(v, p, n) =>
      var q := SkipSpace(text, p);
      if q < |text| && text[q] == CLOSE_BRACKET then Ok(Array(result + [v]), q + 1, n)
      else if q < |text| && text[q] == COMMA then ParseItems(text, lim, q + 1, depth, n, result + [v])
      else Err(BadPunctuation)
  }

  /** Object members from `pos`, after `result`; the closing brace included. */
  ghost function ParseMembers(text: Bytes, lim: ParseLimits, pos: nat, depth: nat, count: nat, result: seq<Member>)
    : (r: Parsed<Value>)
    requires pos <= |text|
    ensures r.Ok? ==> pos < r.pos <= |text|
    decreases |text| - pos, 4
  {
    match ParseMember(text, lim, pos, depth, count)
    case Err(e) => Err(e)
    case Ok(m, p, n) =>
      if HasKey(result, m.key) then Err(DuplicateKey)
      else
        var q := SkipSpace(text, p);
        if q < |text| && text[q] == CLOSE_BRACE then Ok(Object(Insert(result, m)), q + 1, n)
        else if q < |text| && text[q] == COMMA then ParseMembers(text, lim, q + 1, depth, n, Insert(result, m))
        else Err(BadPunctuation)
  }

  /** One key, its colon and its value. */
  ghost function ParseMember(text: Bytes, lim: ParseLimits, pos: nat, depth: nat, count: nat): (r: Parsed<Member>)
    requires pos <= |text|
    ensures r.Ok? ==> pos < r.pos <= |text|
    decreases |text| - pos, 3
  {
    ParseMemberAt(text, lim, SkipSpace(text, pos), depth, count)
  }

  /** The member whose key should open at `pos`. */
  ghost function ParseMemberAt(text: Bytes, lim: ParseLimits, pos: nat, depth: nat, count: nat): (r: Parsed<Member>)
    requires pos <= |text|
    ensures r.Ok? ==> pos < r.pos <= |text|
    decreases |text| - pos, 2
  {
    match ParseKey(text, lim, pos, count)
    case Err(e) => Err(e)
    case Ok(key, p, _) =>
      match ParseValue(text, lim, p, depth, count)
      case Err(e) => Err(e)
      case Ok(v, q, n) => Ok(Member(key, v), q, n)
  }

  ghost function ParseKey(text: Bytes, lim: ParseLimits, pos: nat, count: nat): (r: Parsed<Bytes>)
    requires pos <= |text|
    ensures r.Ok? ==> pos < r.pos <= |text|
  {
    if pos == |text| || text[pos] != QUOTE then Err(BadKey)
    else
      match ParseString(text, lim, pos + 1, count, [])
      case Err(e) => Err(e)
      case Ok(key, p, _) =>
        var q := SkipSpace(text, p);
        if q == |text| || text[q] != COLON then Err(BadPunctuation) else Ok(key, q + 1, count)
  }

  /** `parse(text, limits)`. */
  ghost function Parse(text: Bytes, lim: ParseLimits): (r: Parsed<Value>) {
    if |text| > lim.maxBytes then Err(ByteBudget)
    else
      match ParseValue(text, lim, SkipSpace(text, 0), 0, 0)
      case Err(e) => Err(e)
      case Ok(v, p, n) => if SkipSpace(text, p) != |text| then Err(TrailingContent) else Ok(v, |text|, n)
  }
}
