/**
  * Which texts spell a JSON value: RFC 8259 restricted to unsigned integers, said of the value and
  * the bytes alone. A value has many texts: space between tokens, every escape of a character,
  * hexadecimal digits of either case and members in any order.
  */
module JsonSpelling {
  import opened Bytes
  import opened Utf8
  import opened Json

  // ----- space -----

  /** Space, tab, line feed and carriage return: section 2 of RFC 8259. */
  predicate Blank(b: byte) {
    b == 0x20 || b == 0x09 || b == 0x0A || b == 0x0D
  }

  predicate Blanks(text: Bytes, i: nat, j: nat) {
    i <= j <= |text| && forall k :: i <= k < j ==> Blank(text[k])
  }

  // ----- strings: section 7 of RFC 8259 -----

  /** The hexadecimal digit `d`, in either case. */
  predicate DigitFor(b: byte, d: nat) {
    d < 16 && if d < 10 then b == 0x30 + d else b == 0x41 + (d - 10) || b == 0x61 + (d - 10)
  }

  /** `\u` and the four digits of `n`. */
  predicate UnicodeAt(text: Bytes, i: nat, n: nat) {
    && i + 6 <= |text| && n < 0x10000 && text[i] == 0x5C && text[i + 1] == 0x75
    && DigitFor(text[i + 2], n / 0x1000) && DigitFor(text[i + 3], n / 0x100 % 16)
    && DigitFor(text[i + 4], n / 0x10 % 16) && DigitFor(text[i + 5], n % 16)
  }

  /** The letter of a two-byte escape and the character it stands for. */
  predicate ShortFor(letter: byte, cp: nat) {
    || (letter == 0x22 && cp == 0x22) || (letter == 0x5C && cp == 0x5C) || (letter == 0x2F && cp == 0x2F)
    || (letter == 0x62 && cp == 0x08) || (letter == 0x66 && cp == 0x0C) || (letter == 0x6E && cp == 0x0A)
    || (letter == 0x72 && cp == 0x0D) || (letter == 0x74 && cp == 0x09)
  }

  /** The character itself, unless it must be escaped. */
  predicate RawAt(text: Bytes, i: nat, j: nat, cp: nat) {
    IsScalar(cp) && cp >= 0x20 && cp != 0x22 && cp != 0x5C && j == i + |Encode(cp)| && At(text, i, Encode(cp))
  }

  predicate ShortAt(text: Bytes, i: nat, j: nat, cp: nat) {
    j == i + 2 <= |text| && text[i] == 0x5C && ShortFor(text[i + 1], cp)
  }

  /** A character above the first plane takes the two halves of a surrogate pair. */
  predicate PairAt(text: Bytes, i: nat, j: nat, cp: nat) {
    && 0x10000 <= cp <= 0x10FFFF && j == i + 12
    && UnicodeAt(text, i, 0xD800 + (cp - 0x10000) / 0x400) && UnicodeAt(text, i + 6, 0xDC00 + (cp - 0x10000) % 0x400)
  }

  /** Bytes `i` to `j` spell one character. */
  predicate CharAt(text: Bytes, i: nat, j: nat, cp: nat) {
    IsScalar(cp) &&
    (RawAt(text, i, j, cp) || ShortAt(text, i, j, cp) || (j == i + 6 && UnicodeAt(text, i, cp)) || PairAt(text, i, j, cp))
  }

  /** Bytes `i` to `j` spell the characters whose encodings make up `s`. */
  ghost predicate CharsAt(text: Bytes, i: nat, j: nat, s: Bytes)
    decreases |s|
  {
    if s == [] then i == j
    else
      exists cp: nat, m: nat {:trigger NextChar(text, i, m, cp, s)} ::
        NextChar(text, i, m, cp, s) && m <= j && CharsAt(text, m, j, s[|Encode(cp)|..])
  }

  predicate NextChar(text: Bytes, i: nat, m: nat, cp: nat, s: Bytes) {
    CharAt(text, i, m, cp) && Leads(cp, s)
  }

  predicate Enclosed(text: Bytes, i: nat, j: nat, first: byte, last: byte) {
    i + 2 <= j <= |text| && text[i] == first && text[j - 1] == last
  }

  ghost predicate StringAt(text: Bytes, i: nat, j: nat, s: Bytes) {
    Enclosed(text, i, j, 0x22, 0x22) && CharsAt(text, i + 1, j - 1, s)
  }

  // ----- values -----

  predicate TokenAt(text: Bytes, i: nat, j: nat, token: Bytes) {
    j == i + |token| && At(text, i, token)
  }

  /** Bytes `i` to `j` spell `v`, with no space around it. */
  ghost predicate ValueAt(text: Bytes, i: nat, j: nat, v: Value)
    decreases if i <= j then j - i else 0, 0
  {
    match v
    case Null => TokenAt(text, i, j, [0x6E, 0x75, 0x6C, 0x6C])
    case Boolean(b) => TokenAt(text, i, j, if b then [0x74, 0x72, 0x75, 0x65] else [0x66, 0x61, 0x6C, 0x73, 0x65])
    case Unsigned(n) => TokenAt(text, i, j, Decimal(n))
    case String(s) => StringAt(text, i, j, s)
    case Array(items) =>
      Enclosed(text, i, j, 0x5B, 0x5D) &&
      if items == [] then Blanks(text, i + 1, j - 1) else ItemsAt(text, i + 1, j - 1, items, 0)
    case Object(members) =>
      Enclosed(text, i, j, 0x7B, 0x7D) && Ascending(members, 0) &&
      if members == [] then Blanks(text, i + 1, j - 1) else ArrangedAt(text, i + 1, j - 1, members)
  }

  /** The same, with space on either side. */
  ghost predicate ElementAt(text: Bytes, i: nat, j: nat, v: Value)
    decreases if i <= j then j - i else 0, 1
  {
    exists a: nat, b: nat {:trigger ValueAt(text, a, b, v)} ::
      a <= b && Blanks(text, i, a) && Blanks(text, b, j) && ValueAt(text, a, b, v)
  }

  /** Elements `k` and later, with commas between them. */
  ghost predicate ItemsAt(text: Bytes, i: nat, j: nat, items: seq<Value>, k: nat)
    decreases if i <= j then j - i else 0, 2
  {
    if k >= |items| then false
    else if k + 1 == |items| then ElementAt(text, i, j, items[k])
    else
      exists m: nat {:trigger ElementAt(text, i, m, items[k])} ::
        i <= m < j <= |text| && text[m] == 0x2C && ElementAt(text, i, m, items[k]) && ItemsAt(text, m + 1, j, items, k + 1)
  }

  /** A key, a colon and a value. */
  ghost predicate MemberAt(text: Bytes, i: nat, j: nat, m: Member)
    decreases if i <= j then j - i else 0, 2
  {
    exists c: nat {:trigger KeyAt(text, i, c, m.key)} ::
      i <= c < j <= |text| && text[c] == 0x3A && KeyAt(text, i, c, m.key) && ElementAt(text, c + 1, j, m.value)
  }

  ghost predicate KeyAt(text: Bytes, i: nat, j: nat, key: Bytes) {
    exists a: nat, b: nat {:trigger StringAt(text, a, b, key)} :: Blanks(text, i, a) && Blanks(text, b, j) && StringAt(text, a, b, key)
  }

  /** Members `k` and later in the order of the text. */
  ghost predicate MembersAt(text: Bytes, i: nat, j: nat, order: seq<Member>, k: nat)
    decreases if i <= j then j - i else 0, 3
  {
    if k >= |order| then false
    else if k + 1 == |order| then MemberAt(text, i, j, order[k])
    else
      exists m: nat {:trigger MemberAt(text, i, m, order[k])} ::
        i <= m < j <= |text| && text[m] == 0x2C && MemberAt(text, i, m, order[k]) && MembersAt(text, m + 1, j, order, k + 1)
  }

  /** All the members, in any order. */
  ghost predicate ArrangedAt(text: Bytes, i: nat, j: nat, members: seq<Member>)
    decreases if i <= j then j - i else 0, 4
  {
    exists order: seq<Member> {:trigger MembersAt(text, i, j, order, 0)} ::
      multiset(order) == multiset(members) && MembersAt(text, i, j, order, 0)
  }

  /** The whole text spells `v`. */
  ghost predicate Spells(text: Bytes, v: Value) {
    ElementAt(text, 0, |text|, v)
  }
}
