/**
  * The owned JSON values of the runtime, their canonical encoding, and the measures its
  * parse limits are about. Objects are `std::map`s: sequences of members in strict key order.
  */
module Json {
  import opened Bytes
  import opened Utf8

  datatype Value =
    | Null
    | Boolean(b: bool)
    | Unsigned(n: uint64)
    | String(s: Bytes)
    | Array(items: seq<Value>)
    | Object(members: seq<Member>)

  datatype Member = Member(key: Bytes, value: Value)

  datatype ParseLimits = ParseLimits(maxBytes: size_t, maxDepth: size_t, maxValues: size_t, maxStringBytes: size_t)

  // ----- ASCII -----

  const QUOTE: byte := 0x22
  const COMMA: byte := 0x2C
  const COLON: byte := 0x3A
  const BACKSLASH: byte := 0x5C
  const OPEN_BRACKET: byte := 0x5B
  const CLOSE_BRACKET: byte := 0x5D
  const OPEN_BRACE: byte := 0x7B
  const CLOSE_BRACE: byte := 0x7D
  const NULL_TEXT: Bytes := [0x6E, 0x75, 0x6C, 0x6C]
  const TRUE_TEXT: Bytes := [0x74, 0x72, 0x75, 0x65]
  const FALSE_TEXT: Bytes := [0x66, 0x61, 0x6C, 0x73, 0x65]

  predicate IsDigit(b: byte) {
    0x30 <= b <= 0x39
  }

  /** `"0123456789abcdef"[d]`. */
  function HexDigit(d: nat): byte
    requires d < 16
  {
    if d < 10 then 0x30 + d else 0x57 + d
  }

  // ----- canonical encoding -----

  function EscapedByte(b: byte): (r: Bytes)
    ensures 1 <= |r| <= 6
  {
    if b == QUOTE then [BACKSLASH, QUOTE]
    else if b == BACKSLASH then [BACKSLASH, BACKSLASH]
    else if b == 0x08 then [BACKSLASH, 0x62]
    else if b == 0x0C then [BACKSLASH, 0x66]
    else if b == 0x0A then [BACKSLASH, 0x6E]
    else if b == 0x0D then [BACKSLASH, 0x72]
    else if b == 0x09 then [BACKSLASH, 0x74]
    else if b < 0x20 then [BACKSLASH, 0x75, 0x30, 0x30, HexDigit(b / 16), HexDigit(b % 16)]
    else [b]
  }

  /** The bytes of `s` from index `i` on, escaped, with the closing quote. */
  function EscapedFrom(s: Bytes, i: nat): Bytes
    requires i <= |s|
    decreases |s| - i
  {
    if i == |s| then [QUOTE] else EscapedByte(s[i]) + EscapedFrom(s, i + 1)
  }

  function Quoted(s: Bytes): Bytes {
    [QUOTE] + EscapedFrom(s, 0)
  }

  /** Decimal digits without leading zeros, as `std::to_chars` writes them. */
  function Decimal(n: nat): (r: Bytes)
    ensures |r| >= 1
  {
    if n < 10 then [0x30 + n] else Decimal(n / 10) + [0x30 + n % 10]
  }

  function Canonical(v: Value): Bytes
    decreases v, 0
  {
    match v
    case Null => NULL_TEXT
    case Boolean(b) => if b then TRUE_TEXT else FALSE_TEXT
    case Unsigned(n) => Decimal(n)
    case String(s) => Quoted(s)
    case Array(items) => [OPEN_BRACKET] + ItemsFrom(items, 0)
    case Object(members) => [OPEN_BRACE] + MembersFrom(members, 0)
  }

  /** Array elements from index `i` on, each after its comma, with the closing bracket. */
  function ItemsFrom(items: seq<Value>, i: nat): (r: Bytes)
    requires i <= |items|
    ensures |r| >= 1
    decreases items, |items| - i
  {
    if i == |items| then [CLOSE_BRACKET]
    else Separator(i) + (Canonical(items[i]) + ItemsFrom(items, i + 1))
  }

  function MembersFrom(members: seq<Member>, i: nat): (r: Bytes)
    requires i <= |members|
    ensures |r| >= 1
    decreases members, |members| - i
  {
    if i == |members| then [CLOSE_BRACE]
    else Separator(i) + (MemberText(members[i]) + MembersFrom(members, i + 1))
  }

  function MemberText(m: Member): Bytes
    decreases m, 1
  {
    Quoted(m.key) + ([COLON] + Canonical(m.value))
  }

  function Separator(i: nat): Bytes {
    if i == 0 then [] else [COMMA]
  }

  // ----- what a `std::map` guarantees -----

  /** Keys strictly ascend from each member to the next. */
  predicate Ascending(members: seq<Member>, i: nat)
    requires i <= |members|
    decreases |members| - i
  {
    i == |members| || ((i > 0 ==> Less(members[i - 1].key, members[i].key)) && Ascending(members, i + 1))
  }

  /** Every object inside `v` has its members in strict key order. */
  predicate Ordered(v: Value)
    decreases v, 0
  {
    match v
    case Array(items) => OrderedItems(items, 0)
    case Object(members) => Ascending(members, 0) && OrderedMembers(members, 0)
    case _ => true
  }

  predicate OrderedItems(items: seq<Value>, i: nat)
    requires i <= |items|
    decreases items, |items| - i
  {
    i == |items| || (Ordered(items[i]) && OrderedItems(items, i + 1))
  }

  predicate OrderedMembers(members: seq<Member>, i: nat)
    requires i <= |members|
    decreases members, |members| - i
  {
    i == |members| || (Ordered(members[i].value) && OrderedMembers(members, i + 1))
  }

  // ----- measures -----

  /** Number of values, the root included; object keys are not values. */
  function Count(v: Value): (r: nat)
    ensures r >= 1
    decreases v, 0
  {
    match v
    case Array(items) => 1 + CountItems(items, 0)
    case Object(members) => 1 + CountMembers(members, 0)
    case _ => 1
  }

  function CountItems(items: seq<Value>, i: nat): nat
    requires i <= |items|
    decreases items, |items| - i
  {
    if i == |items| then 0 else Count(items[i]) + CountItems(items, i + 1)
  }

  function CountMembers(members: seq<Member>, i: nat): nat
    requires i <= |members|
    decreases members, |members| - i
  {
    if i == |members| then 0 else Count(members[i].value) + CountMembers(members, i + 1)
  }

  ghost predicate StringFits(s: Bytes, lim: ParseLimits) {
    |s| <= lim.maxStringBytes && IsUtf8(s)
  }

  /**
    * No value inside `v` lies more than `budget` levels below it, and every string and key
    * in it is well-formed UTF-8 within the string budget.
    */
  ghost predicate Admissible(v: Value, lim: ParseLimits, budget: int)
    decreases v, 0
  {
    budget >= 0 &&
    match v
    case String(s) => StringFits(s, lim)
    case Array(items) => AdmissibleItems(items, 0, lim, budget - 1)
    case Object(members) => AdmissibleMembers(members, 0, lim, budget - 1)
    case _ => true
  }

  ghost predicate AdmissibleItems(items: seq<Value>, i: nat, lim: ParseLimits, budget: int)
    requires i <= |items|
    decreases items, |items| - i
  {
    i == |items| || (Admissible(items[i], lim, budget) && AdmissibleItems(items, i + 1, lim, budget))
  }

  ghost predicate AdmissibleMembers(members: seq<Member>, i: nat, lim: ParseLimits, budget: int)
    requires i <= |members|
    decreases members, |members| - i
  {
    i == |members| ||
    (StringFits(members[i].key, lim) && Admissible(members[i].value, lim, budget) && AdmissibleMembers(members, i + 1, lim, budget))
  }

  /** `v`, met at `depth` after `count` earlier values, stays within the depth, value and string budgets. */
  ghost predicate Fits(v: Value, lim: ParseLimits, depth: nat, count: nat) {
    Admissible(v, lim, lim.maxDepth - depth) && count + Count(v) <= lim.maxValues
  }

  // ----- equality -----

  /** `equal_values`: the recursive comparison of two values. */
  predicate EqualValues(a: Value, b: Value)
    decreases a, 0
  {
    match (a, b)
    case (Null, Null) => true
    case (Boolean(x), Boolean(y)) => x == y
    case (Unsigned(x), Unsigned(y)) => x == y
    case (String(x), String(y)) => x == y
    case (Array(x), Array(y)) => |x| == |y| && EqualItems(x, y, 0)
    case (Object(x), Object(y)) => |x| == |y| && EqualMembers(x, y, 0)
    case _ => false
  }

  predicate EqualItems(a: seq<Value>, b: seq<Value>, i: nat)
    requires i <= |a| == |b|
    decreases a, |a| - i
  {
    i == |a| || (EqualValues(a[i], b[i]) && EqualItems(a, b, i + 1))
  }

  predicate EqualMembers(a: seq<Member>, b: seq<Member>, i: nat)
    requires i <= |a| == |b|
    decreases a, |a| - i
  {
    i == |a| || (a[i].key == b[i].key && EqualValues(a[i].value, b[i].value) && EqualMembers(a, b, i + 1))
  }
}
