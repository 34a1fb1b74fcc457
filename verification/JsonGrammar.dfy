/** The parser reads exactly the spellings within the limits, and a text spells at most one value. */
module JsonGrammar {
  import opened Bytes
  import opened Wrappers
  import opened Sequences
  import opened Utf8
  import opened Json
  import opened JsonParser
  import opened JsonExact
  import opened JsonSound
  import opened JsonStrings
  import opened JsonSpelling
  import opened JsonReading

  // ----- strings -----

  /** Where the rest of a well-escaped literal closes. */
  function CloseOf(text: Bytes, pos: nat): (r: nat)
    requires pos <= |text| && Decoded(text, pos).Some?
    ensures pos <= r < |text|
    decreases |text| - pos
  {
    match Step(text, pos)
    case Emit(_, next) => CloseOf(text, next)
    case _ => pos
  }

  lemma {:induction false} StringValue(text: Bytes, lim: ParseLimits, pos: nat, count: nat, done: Bytes)
    requires pos <= |text| && ParseString(text, lim, pos, count, done).Ok?
    ensures Decoded(text, pos).Some? && text[CloseOf(text, pos)] == QUOTE
    ensures ParseString(text, lim, pos, count, done) == Ok(done + Decoded(text, pos).value, CloseOf(text, pos) + 1, count)
    decreases |text| - pos
  {
    match Step(text, pos)
    case Close =>
      assert done + [] == done;
    case Emit(bytes, next) =>
      StringTurn(text, lim, pos, count, done, bytes, next);
      StringValue(text, lim, next, count, done + bytes);
      Associative(done, bytes, Decoded(text, next).value);
  }

  /** An escape is a spelling of the character it emits. */
  lemma EscapeSpells(text: Bytes, pos: nat) returns (cp: nat)
    requires pos < |text| && text[pos] == BACKSLASH && Step(text, pos).Emit?
    ensures CharAt(text, pos, Step(text, pos).next, cp) && Step(text, pos).bytes == Encode(cp)
  {
    if text[pos + 1] == 0x75 {
      cp := UnicodeSpells(text, pos);
    } else {
      cp := Step(text, pos).bytes[0];
      assert ShortAt(text, pos, pos + 2, cp);
    }
  }

  lemma UnicodeSpells(text: Bytes, pos: nat) returns (cp: nat)
    requires pos + 1 < |text| && text[pos] == BACKSLASH && text[pos + 1] == 0x75 && UnicodeStep(text, pos + 2).Emit?
    ensures CharAt(text, pos, UnicodeStep(text, pos + 2).next, cp) && UnicodeStep(text, pos + 2).bytes == Encode(cp)
  {
    var code := HexCode(text, pos + 2);
    UnicodeDigits(text, pos, code);
    cp := code;
    if 0xD800 <= code <= 0xDBFF {
      var low := HexCode(text, pos + 8);
      UnicodeDigits(text, pos + 6, low);
      cp := 0x10000 + (code - 0xD800) * 0x400 + (low - 0xDC00);
      Halves(code - 0xD800, low - 0xDC00);
      assert PairAt(text, pos, pos + 12, cp);
    }
  }

  lemma Halves(high: nat, low: nat)
    requires low < 0x400
    ensures (high * 0x400 + low) / 0x400 == high && (high * 0x400 + low) % 0x400 == low
  {
  }

  /** A byte that cannot start an escape's encoding was not escaped. */
  lemma RawByte(text: Bytes, pos: nat, s: Bytes)
    requires pos <= |text| && Decoded(text, pos) == Some(s) && s != []
    requires Continuation(s[0]) || (pos < |text| && text[pos] != BACKSLASH)
    ensures pos < |text| && Plain(text[pos]) && text[pos] == s[0]
    ensures Decoded(text, pos + 1) == Some(s[1..]) && CloseOf(text, pos + 1) == CloseOf(text, pos)
  {
    if text[pos] == BACKSLASH {
      var cp := EscapeSpells(text, pos);
      EncodeShape(cp);
    }
  }

  /** The bytes of one encoded character, all of them raw. */
  lemma {:induction false} RawBytes(text: Bytes, pos: nat, s: Bytes, n: nat)
    requires pos <= |text| && Decoded(text, pos) == Some(s) && 0 < n <= |s|
    requires Continuation(s[0]) || (pos < |text| && text[pos] != BACKSLASH)
    requires forall k :: 1 <= k < n ==> Continuation(s[k])
    ensures pos + n <= |text| && text[pos..pos + n] == s[..n] && Plain(text[pos])
    ensures Decoded(text, pos + n) == Some(s[n..]) && CloseOf(text, pos + n) == CloseOf(text, pos)
    decreases n
  {
    if n == 1 {
      RawByte(text, pos, s);
      assert text[pos..pos + 1] == [text[pos]];
    } else {
      RawBytes(text, pos, s, n - 1);
      RawByte(text, pos + n - 1, s[n - 1..]);
      LastOfSlices(text, pos, s, n);
    }
  }

  lemma LastOfSlices<T>(text: seq<T>, pos: nat, s: seq<T>, n: nat)
    requires 0 < n <= |s| && pos + n <= |text| && text[pos + n - 1] == s[n - 1] && text[pos..pos + n - 1] == s[..n - 1]
    ensures text[pos..pos + n] == s[..n] && s[n - 1..][1..] == s[n..]
  {
    assert text[pos..pos + n] == text[pos..pos + n - 1] + [text[pos + n - 1]];
    assert s[..n] == s[..n - 1] + [s[n - 1]];
  }

  lemma LeadContinues(cp: nat, s: Bytes, n: nat)
    requires Leads(cp, s) && n == |Encode(cp)|
    ensures 0 < n <= |s| && forall k :: 1 <= k < n ==> Continuation(s[k])
  {
    EncodeShape(cp);
  }

  lemma RawChar(text: Bytes, pos: nat, cp: nat, n: nat)
    requires IsScalar(cp) && n == |Encode(cp)| && pos + n <= |text| && text[pos..pos + n] == Encode(cp) && Plain(text[pos])
    ensures CharAt(text, pos, pos + n, cp)
  {
    AtSlice(text, pos, Encode(cp));
    assert text[pos] == text[pos..pos + n][0];
  }

  lemma RawSpells(text: Bytes, pos: nat, m: nat, cp: nat, s: Bytes)
    requires pos < |text| && text[pos] != BACKSLASH && Decoded(text, pos) == Some(s) && Leads(cp, s) && m == pos + |Encode(cp)|
    ensures pos < m <= |text| && NextChar(text, pos, m, cp, s)
    ensures Decoded(text, m) == Some(s[|Encode(cp)|..]) && CloseOf(text, m) == CloseOf(text, pos)
  {
    var n := |Encode(cp)|;
    LeadContinues(cp, s, n);
    RawBytes(text, pos, s, n);
    RawChar(text, pos, cp, n);
  }

  /** One more character in front. */
  lemma CharsCons(text: Bytes, i: nat, m: nat, j: nat, cp: nat, s: Bytes)
    requires NextChar(text, i, m, cp, s) && m <= j && CharsAt(text, m, j, s[|Encode(cp)|..])
    ensures CharsAt(text, i, j, s)
  {
  }

  /** A literal that goes on with an escape: its character, and what is left. */
  lemma EscapedFirst(text: Bytes, pos: nat, s: Bytes) returns (cp: nat, m: nat)
    requires pos < |text| && text[pos] == BACKSLASH && Step(text, pos).Emit? && Decoded(text, pos) == Some(s) && IsUtf8(s)
    ensures pos < m <= |text| && NextChar(text, pos, m, cp, s)
    ensures Decoded(text, m) == Some(s[|Encode(cp)|..]) && IsUtf8(s[|Encode(cp)|..]) && CloseOf(text, m) == CloseOf(text, pos)
  {
    cp := EscapeSpells(text, pos);
    m := Step(text, pos).next;
    AfterFirst(cp, Encode(cp), Decoded(text, m).value, s);
  }

  lemma AfterFirst(cp: nat, e: Bytes, rest: Bytes, s: Bytes)
    requires IsScalar(cp) && e == Encode(cp) && s == e + rest && IsUtf8(s)
    ensures Leads(cp, s) && s[|e|..] == rest && IsUtf8(rest)
  {
    EscapeCannotRepair([], cp, rest);
    EmptyPrefix(e);
  }

  lemma RawFirst(text: Bytes, pos: nat, s: Bytes) returns (cp: nat, m: nat)
    requires pos < |text| && text[pos] != BACKSLASH && Decoded(text, pos) == Some(s) && s != [] && IsUtf8(s)
    ensures pos < m <= |text| && NextChar(text, pos, m, cp, s)
    ensures Decoded(text, m) == Some(s[|Encode(cp)|..]) && IsUtf8(s[|Encode(cp)|..]) && CloseOf(text, m) == CloseOf(text, pos)
  {
    cp := Lead(s);
    m := pos + |Encode(cp)|;
    RawSpells(text, pos, m, cp, s);
  }

  lemma {:induction false} CharsSpelled(text: Bytes, pos: nat, j: nat, s: Bytes)
    requires pos <= |text| && Decoded(text, pos) == Some(s) && IsUtf8(s) && CloseOf(text, pos) == j
    ensures CharsAt(text, pos, j, s)
    decreases |text| - pos
  {
    if Step(text, pos).Emit? {
      var cp, m;
      if text[pos] == BACKSLASH {
        cp, m := EscapedFirst(text, pos, s);
      } else {
        cp, m := RawFirst(text, pos, s);
      }
      CharsSpelled(text, m, j, s[|Encode(cp)|..]);
      CharsCons(text, pos, m, j, cp, s);
    }
  }

  lemma LiteralValue(text: Bytes, lim: ParseLimits, pos: nat, count: nat, j: nat, s: Bytes, n: nat)
    requires pos <= |text| && ParseString(text, lim, pos, count, []) == Ok(s, j, n)
    ensures Decoded(text, pos) == Some(s) && IsUtf8(s) && CloseOf(text, pos) == j - 1 && text[j - 1] == QUOTE && n == count
  {
    StringSound(text, lim, pos, count, []);
    StringValue(text, lim, pos, count, []);
    EmptyPrefix(Decoded(text, pos).value);
  }

  lemma BodySpelled(text: Bytes, lim: ParseLimits, pos: nat, count: nat, j: nat, s: Bytes, n: nat)
    requires pos <= |text| && ParseString(text, lim, pos, count, []) == Ok(s, j, n)
    ensures pos < j <= |text| && text[j - 1] == QUOTE && n == count && CharsAt(text, pos, j - 1, s)
  {
    LiteralValue(text, lim, pos, count, j, s, n);
    CharsSpelled(text, pos, j - 1, s);
  }

  lemma StringSpelled(text: Bytes, lim: ParseLimits, i: nat, count: nat, j: nat, s: Bytes, n: nat)
    requires i < |text| && text[i] == QUOTE && ParseString(text, lim, i + 1, count, []) == Ok(s, j, n)
    ensures StringAt(text, i, j, s) && n == count
  {
    BodySpelled(text, lim, i + 1, count, j, s, n);
  }

  // ----- values -----

  lemma ElementOf(text: Bytes, i: nat, a: nat, b: nat, j: nat, v: Value)
    requires a <= b && Blanks(text, i, a) && Blanks(text, b, j) && ValueAt(text, a, b, v)
    ensures ElementAt(text, i, j, v)
  {
  }

  lemma ScalarSpelled(text: Bytes, lim: ParseLimits, i: nat, depth: nat, count: nat, j: nat, v: Value, n: nat)
    requires i < |text| && text[i] != OPEN_BRACKET && text[i] != OPEN_BRACE && ParseToken(text, lim, i, depth, count) == Ok(v, j, n)
    ensures ValueAt(text, i, j, v)
  {
    if text[i] == QUOTE {
      StringSpelled(text, lim, i, count, j, v.s, n);
    } else if IsDigit(text[i]) {
      NumberSpelled(text, i, count, j, v, n);
    }
  }

  lemma NumberSpelled(text: Bytes, i: nat, count: nat, j: nat, v: Value, n: nat)
    requires i < |text| && IsDigit(text[i]) && ParseNumber(text, i, count) == Ok(v, j, n)
    ensures v.Unsigned? && TokenAt(text, i, j, Decimal(v.n))
  {
    assert j > i;
    DecimalUnique(text[i..j]);
    AtSlice(text, i, text[i..j]);
  }

  /** What a value is read from is a spelling of it, space before and after included. */
  lemma {:induction false} ValueSpelled(text: Bytes, lim: ParseLimits, i: nat, depth: nat, count: nat, b: nat, v: Value, n: nat)
    requires i <= |text| && ParseValue(text, lim, i, depth, count) == Ok(v, b, n)
    ensures b <= |text| && ElementAt(text, i, SkipSpace(text, b), v)
    decreases |text| - i, 2
  {
    var a := SkipSpace(text, i);
    TokenSpelled(text, lim, a, depth, count + 1, b, v, n);
    SkippedAreBlanks(text, i);
    SkippedAreBlanks(text, b);
    ElementOf(text, i, a, b, SkipSpace(text, b), v);
  }

  lemma {:induction false} TokenSpelled(text: Bytes, lim: ParseLimits, i: nat, depth: nat, count: nat, j: nat, v: Value, n: nat)
    requires i < |text| && ParseToken(text, lim, i, depth, count) == Ok(v, j, n)
    ensures ValueAt(text, i, j, v)
    decreases |text| - i, 1
  {
    if text[i] == OPEN_BRACKET {
      ArraySpelled(text, lim, i, depth, count, j, v, n);
    } else if text[i] == OPEN_BRACE {
      ObjectSpelled(text, lim, i, depth, count, j, v, n);
    } else {
      ScalarSpelled(text, lim, i, depth, count, j, v, n);
    }
  }

  // ----- arrays -----

  lemma ItemsOne(text: Bytes, i: nat, j: nat, items: seq<Value>, k: nat, e: Value)
    requires k + 1 == |items| && items[k] == e && ElementAt(text, i, j, e)
    ensures ItemsAt(text, i, j, items, k)
  {
  }

  lemma ItemsCons(text: Bytes, i: nat, m: nat, j: nat, items: seq<Value>, k: nat, e: Value)
    requires k + 1 < |items| && items[k] == e && i <= m < j <= |text| && text[m] == COMMA
    requires ElementAt(text, i, m, e) && ItemsAt(text, m + 1, j, items, k + 1)
    ensures ItemsAt(text, i, j, items, k)
  {
  }

  /** One turn of the element loop: the spelling of its element, and what follows it. */
  lemma {:induction false} ItemTurn(text: Bytes, lim: ParseLimits, i: nat, depth: nat, count: nat, done: seq<Value>,
                                   j: nat, v: Value, n: nat)
    returns (e: Value, m: nat, c: nat)
    requires i <= |text| && ParseItems(text, lim, i, depth, count, done) == Ok(v, j, n)
    ensures i < m < |text| && ElementAt(text, i, m, e)
    ensures || (text[m] == COMMA && ParseItems(text, lim, m + 1, depth, c, done + [e]) == Ok(v, j, n))
            || (text[m] == CLOSE_BRACKET && v == Array(done + [e]) && j == m + 1)
    decreases |text| - i, 3
  {
    var p := ParseValue(text, lim, i, depth, count);
    e, m, c := p.value, SkipSpace(text, p.pos), p.count;
    ValueSpelled(text, lim, i, depth, count, p.pos, e, c);
  }

  /** The elements behind `done` are spelled. */
  ghost predicate Itemized(text: Bytes, i: nat, j: nat, v: Value, done: seq<Value>) {
    i < j <= |text| && text[j - 1] == CLOSE_BRACKET && v.Array? && done < v.items && ItemsAt(text, i, j - 1, v.items, |done|)
  }

  lemma ItemizedNext(text: Bytes, i: nat, m: nat, j: nat, v: Value, done: seq<Value>, e: Value)
    requires i < m < |text| && text[m] == COMMA && ElementAt(text, i, m, e) && Itemized(text, m + 1, j, v, done + [e])
    ensures Itemized(text, i, j, v, done)
  {
    NextOf(done, e, v.items);
    ItemsCons(text, i, m, j - 1, v.items, |done|, e);
  }

  lemma ItemizedLast(text: Bytes, i: nat, m: nat, j: nat, v: Value, done: seq<Value>, e: Value)
    requires i < m < |text| && text[m] == CLOSE_BRACKET && ElementAt(text, i, m, e) && v == Array(done + [e]) && j == m + 1
    ensures Itemized(text, i, j, v, done)
  {
    NextOf(done, e, v.items);
    ItemsOne(text, i, m, v.items, |done|, e);
  }

  lemma {:induction false} ItemsSpelled(text: Bytes, lim: ParseLimits, i: nat, depth: nat, count: nat, done: seq<Value>,
                                        j: nat, v: Value, n: nat)
    requires i <= |text| && ParseItems(text, lim, i, depth, count, done) == Ok(v, j, n)
    ensures Itemized(text, i, j, v, done)
    decreases |text| - i, 4
  {
    var e, m, c := ItemTurn(text, lim, i, depth, count, done, j, v, n);
    if text[m] == COMMA {
      ItemsSpelled(text, lim, m + 1, depth, c, done + [e], j, v, n);
      ItemizedNext(text, i, m, j, v, done, e);
    } else {
      ItemizedLast(text, i, m, j, v, done, e);
    }
  }

  lemma NextOf<T>(before: seq<T>, x: T, all: seq<T>)
    requires before + [x] <= all
    ensures before < all && |before| < |all| && all[|before|] == x
  {
    assert all[|before|] == (before + [x])[|before|];
  }

  lemma ArrayOf(text: Bytes, i: nat, j: nat, items: seq<Value>)
    requires Enclosed(text, i, j, OPEN_BRACKET, CLOSE_BRACKET)
    requires if items == [] then Blanks(text, i + 1, j - 1) else ItemsAt(text, i + 1, j - 1, items, 0)
    ensures ValueAt(text, i, j, Array(items))
  {
  }

  lemma {:induction false} ArraySpelled(text: Bytes, lim: ParseLimits, i: nat, depth: nat, count: nat, j: nat, v: Value, n: nat)
    requires i < |text| && text[i] == OPEN_BRACKET && ParseToken(text, lim, i, depth, count) == Ok(v, j, n)
    ensures ValueAt(text, i, j, v)
    decreases |text| - i, 0
  {
    ArrayStarts(text, lim, i, depth, count);
    var q := SkipSpace(text, i + 1);
    if q < |text| && text[q] == CLOSE_BRACKET {
      SkippedAreBlanks(text, i + 1);
      ArrayOf(text, i, j, []);
    } else {
      ItemsSpelled(text, lim, i + 1, depth + 1, count, [], j, v, n);
      ArrayOf(text, i, j, v.items);
    }
  }

  // ----- objects -----

  lemma KeyOf(text: Bytes, i: nat, a: nat, b: nat, c: nat, key: Bytes)
    requires Blanks(text, i, a) && Blanks(text, b, c) && StringAt(text, a, b, key)
    ensures KeyAt(text, i, c, key)
  {
  }

  lemma KeyParts(text: Bytes, lim: ParseLimits, a: nat, count: nat, c: nat, key: Bytes, n: nat) returns (b: nat, k: nat)
    requires a <= |text| && ParseKey(text, lim, a, count) == Ok(key, c + 1, n)
    ensures a < |text| && text[a] == QUOTE && ParseString(text, lim, a + 1, count, []) == Ok(key, b, k)
    ensures b <= |text| && SkipSpace(text, b) == c < |text| && text[c] == COLON
  {
    var s := ParseString(text, lim, a + 1, count, []);
    b, k := s.pos, s.count;
  }

  lemma KeySpelled(text: Bytes, lim: ParseLimits, i: nat, count: nat, c: nat, key: Bytes, n: nat)
    requires i <= |text| && ParseKey(text, lim, SkipSpace(text, i), count) == Ok(key, c + 1, n)
    ensures i <= c < |text| && text[c] == COLON && KeyAt(text, i, c, key)
  {
    var a := SkipSpace(text, i);
    var b, k := KeyParts(text, lim, a, count, c, key, n);
    StringSpelled(text, lim, a, count, b, key, k);
    SkippedAreBlanks(text, i);
    SkippedAreBlanks(text, b);
    KeyOf(text, i, a, b, c, key);
  }

  lemma MemberOf(text: Bytes, i: nat, c: nat, j: nat, m: Member)
    requires i <= c < j <= |text| && text[c] == COLON && KeyAt(text, i, c, m.key) && ElementAt(text, c + 1, j, m.value)
    ensures MemberAt(text, i, j, m)
  {
  }

  lemma MemberParts(text: Bytes, lim: ParseLimits, i: nat, depth: nat, count: nat, b: nat, m: Member, n: nat) returns (c: nat, k: nat)
    requires i <= |text| && ParseMember(text, lim, i, depth, count) == Ok(m, b, n)
    ensures c < |text| && ParseKey(text, lim, SkipSpace(text, i), count) == Ok(m.key, c + 1, k)
    ensures ParseValue(text, lim, c + 1, depth, count) == Ok(m.value, b, n)
  {
    var key := ParseKey(text, lim, SkipSpace(text, i), count);
    c, k := key.pos - 1, key.count;
  }

  lemma {:induction false} MemberSpelled(text: Bytes, lim: ParseLimits, i: nat, depth: nat, count: nat, b: nat, m: Member, n: nat)
    requires i <= |text| && ParseMember(text, lim, i, depth, count) == Ok(m, b, n)
    ensures b <= |text| && MemberAt(text, i, SkipSpace(text, b), m)
    decreases |text| - i, 3
  {
    var c, k := MemberParts(text, lim, i, depth, count, b, m, n);
    KeySpelled(text, lim, i, count, c, m.key, k);
    ValueSpelled(text, lim, c + 1, depth, count, b, m.value, n);
    MemberOf(text, i, c, SkipSpace(text, b), m);
  }

  lemma MembersOne(text: Bytes, i: nat, j: nat, order: seq<Member>, k: nat, m: Member)
    requires k + 1 == |order| && order[k] == m && MemberAt(text, i, j, m)
    ensures MembersAt(text, i, j, order, k)
  {
  }

  lemma MembersCons(text: Bytes, i: nat, q: nat, j: nat, order: seq<Member>, k: nat, m: Member)
    requires k + 1 < |order| && order[k] == m && i <= q < j <= |text| && text[q] == COMMA
    requires MemberAt(text, i, q, m) && MembersAt(text, q + 1, j, order, k + 1)
    ensures MembersAt(text, i, j, order, k)
  {
  }

  /** `all` holds `done` and the elements of `order` from `k` on. */
  ghost predicate Gathers<T>(all: seq<T>, done: seq<T>, order: seq<T>, k: nat) {
    k <= |order| && multiset(all) == multiset(done) + multiset(order[k..])
  }

  lemma GathersLast<T>(all: seq<T>, done: seq<T>, order: seq<T>, k: nat)
    requires k + 1 == |order| && multiset(all) == multiset(done) + multiset{order[k]}
    ensures Gathers(all, done, order, k)
  {
    assert order[k..] == [order[k]];
  }

  lemma GathersNext<T>(all: seq<T>, done: seq<T>, more: seq<T>, order: seq<T>, k: nat)
    requires k < |order| && multiset(more) == multiset(done) + multiset{order[k]} && Gathers(all, more, order, k + 1)
    ensures Gathers(all, done, order, k)
  {
    TailAdds(order, k);
  }

  /** One turn of the member loop: the spelling of its member, and all members so far. */
  lemma {:induction false} MemberTurn(text: Bytes, lim: ParseLimits, i: nat, depth: nat, count: nat, done: seq<Member>,
                                     j: nat, v: Value, n: nat)
    returns (m: Member, q: nat, c: nat, more: seq<Member>)
    requires i <= |text| && ParseMembers(text, lim, i, depth, count, done) == Ok(v, j, n)
    ensures i < q < |text| && MemberAt(text, i, q, m) && multiset(more) == multiset(done) + multiset{m}
    ensures || (text[q] == COMMA && ParseMembers(text, lim, q + 1, depth, c, more) == Ok(v, j, n))
            || (text[q] == CLOSE_BRACE && v == Object(more) && j == q + 1)
    decreases |text| - i, 4
  {
    q := JsonSound.MembersTurn(text, lim, i, depth, count, done);
    var p := ParseMember(text, lim, i, depth, count);
    m, c, more := p.value, p.count, Insert(done, p.value);
    MemberSpelled(text, lim, i, depth, count, p.pos, m, c);
    InsertCounts(done, m);
  }

  /** Members `k` and later of `order` are spelled, and with `done` they are the members of the object `v`. */
  ghost predicate Listed(text: Bytes, i: nat, j: nat, v: Value, done: seq<Member>, before: seq<Member>, order: seq<Member>) {
    && i < j <= |text| && text[j - 1] == CLOSE_BRACE && v.Object? && before < order
    && Gathers(v.members, done, order, |before|) && MembersAt(text, i, j - 1, order, |before|)
  }

  lemma ListedNext(text: Bytes, i: nat, q: nat, j: nat, v: Value, done: seq<Member>, more: seq<Member>, m: Member, before: seq<Member>,
                   order: seq<Member>)
    requires i < q < |text| && text[q] == COMMA && MemberAt(text, i, q, m) && multiset(more) == multiset(done) + multiset{m}
    requires Listed(text, q + 1, j, v, more, before + [m], order)
    ensures Listed(text, i, j, v, done, before, order)
  {
    NextOf(before, m, order);
    MembersCons(text, i, q, j - 1, order, |before|, m);
    GathersNext(v.members, done, more, order, |before|);
  }

  lemma ListedLast(text: Bytes, i: nat, q: nat, j: nat, v: Value, done: seq<Member>, more: seq<Member>, m: Member, before: seq<Member>,
                   order: seq<Member>)
    requires i < q < |text| && j == q + 1 && text[q] == CLOSE_BRACE && MemberAt(text, i, q, m)
    requires multiset(more) == multiset(done) + multiset{m} && v == Object(more) && order == before + [m]
    ensures Listed(text, i, j, v, done, before, order)
  {
    MembersOne(text, i, q, order, |before|, m);
    GathersLast(v.members, done, order, |before|);
  }

  lemma {:induction false} MembersSpelled(text: Bytes, lim: ParseLimits, i: nat, depth: nat, count: nat, done: seq<Member>,
                                          before: seq<Member>, j: nat, v: Value, n: nat) returns (order: seq<Member>)
    requires i <= |text| && ParseMembers(text, lim, i, depth, count, done) == Ok(v, j, n)
    ensures Listed(text, i, j, v, done, before, order)
    decreases |text| - i, 5
  {
    var m, q, c, more := MemberTurn(text, lim, i, depth, count, done, j, v, n);
    if text[q] == COMMA {
      order := MembersSpelled(text, lim, q + 1, depth, c, more, before + [m], j, v, n);
      ListedNext(text, i, q, j, v, done, more, m, before, order);
    } else {
      order := before + [m];
      ListedLast(text, i, q, j, v, done, more, m, before, order);
    }
  }

  lemma ObjectOf(text: Bytes, i: nat, j: nat, members: seq<Member>, order: seq<Member>)
    requires Enclosed(text, i, j, OPEN_BRACE, CLOSE_BRACE) && Ascending(members, 0)
    requires if members == [] then Blanks(text, i + 1, j - 1)
             else multiset(order) == multiset(members) && MembersAt(text, i + 1, j - 1, order, 0)
    ensures ValueAt(text, i, j, Object(members))
  {
    if members != [] {
      assert ArrangedAt(text, i + 1, j - 1, members);
    }
  }

  lemma GathersAll<T>(all: seq<T>, order: seq<T>)
    requires Gathers(all, [], order, 0) && order != []
    ensures multiset(order) == multiset(all) && all != []
  {
    assert order[0..] == order;
    assert order[0] in multiset(order);
  }

  lemma {:induction false} ObjectSpelled(text: Bytes, lim: ParseLimits, i: nat, depth: nat, count: nat, j: nat, v: Value, n: nat)
    requires i < |text| && text[i] == OPEN_BRACE && ParseToken(text, lim, i, depth, count) == Ok(v, j, n)
    ensures ValueAt(text, i, j, v)
    decreases |text| - i, 0
  {
    ObjectStarts(text, lim, i, depth, count);
    var q := SkipSpace(text, i + 1);
    if q < |text| && text[q] == CLOSE_BRACE {
      SkippedAreBlanks(text, i + 1);
      ObjectOf(text, i, j, [], []);
    } else {
      var order := MembersSpelled(text, lim, i + 1, depth + 1, count, [], [], j, v, n);
      MembersSound(text, lim, i + 1, depth + 1, count, []);
      GathersAll(v.members, order);
      ObjectOf(text, i, j, v.members, order);
    }
  }

  // ----- the laws -----

  /** The parser returns a value exactly when the text is one of its spellings and all limits are kept. */
  lemma ParseExact(text: Bytes, lim: ParseLimits, v: Value)
    ensures Parse(text, lim).Ok? && Parse(text, lim).value == v <==>
            Spells(text, v) && |text| <= lim.maxBytes && Fits(v, lim, 0, 0)
  {
    if Parse(text, lim).Ok? && Parse(text, lim).value == v {
      var p := SkipSpace(text, 0);
      var r := ParseValue(text, lim, p, 0, 0);
      ValueSpelled(text, lim, p, 0, 0, r.pos, v, r.count);
      ValueSound(text, lim, p, 0, 0);
      var a: nat, b: nat :| a <= b && Blanks(text, p, a) && Blanks(text, b, |text|) && ValueAt(text, a, b, v);
      SkippedAreBlanks(text, 0);
      ElementOf(text, 0, a, b, |text|, v);
    }
    if Spells(text, v) && |text| <= lim.maxBytes && Fits(v, lim, 0, 0) {
      SpellingRead(text, lim, v);
    }
  }

  /** A text is refused exactly when it is too long or spells no value within the limits. */
  lemma RefusalExact(text: Bytes, lim: ParseLimits)
    ensures Parse(text, lim).Err? <==> |text| > lim.maxBytes || forall v :: Spells(text, v) ==> !Fits(v, lim, 0, 0)
  {
    if Parse(text, lim).Ok? {
      var v := Parse(text, lim).value;
      ParseExact(text, lim, v);
      assert Spells(text, v) && Fits(v, lim, 0, 0);
    } else {
      forall v | Spells(text, v) && |text| <= lim.maxBytes ensures !Fits(v, lim, 0, 0) {
        ParseExact(text, lim, v);
      }
    }
  }

  /** The printer's choice among the spellings of a byte: the shortest, with digits in lower case. */
  lemma EscapeChosen(b: byte)
    ensures var e := EscapedByte(b);
            if b == 0x22 || b == 0x5C || 0x08 <= b <= 0x0A || b == 0x0C || b == 0x0D then
              |e| == 2 && ShortAt(e, 0, 2, b)
            else if b < 0x20 then
              |e| == 6 && UnicodeAt(e, 0, b) && forall k :: 2 <= k < 6 ==> 0x30 <= e[k] <= 0x39 || 0x61 <= e[k] <= 0x66
            else e == [b]
  {
  }
}
