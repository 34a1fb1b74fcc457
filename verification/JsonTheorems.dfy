/** The laws of the JSON kernel: round trip, normalisation, unique readability and equality. */
module JsonTheorems {
  import opened Bytes
  import opened Sequences
  import opened Json
  import opened JsonParser
  import opened JsonExact
  import opened JsonSound

  /** Parsing a canonical text gives the value back whenever the value is within the limits. */
  lemma RoundTrip(v: Value, lim: ParseLimits)
    requires Ordered(v) && Fits(v, lim, 0, 0) && |Canonical(v)| <= lim.maxBytes
    ensures Parse(Canonical(v), lim) == Ok(v, |Canonical(v)|, Count(v))
  {
    ParseOfCanonical(v, lim);
  }

  /**
    * For every accepted text, whatever its spacing and escapes: the canonical encoding of the
    * value read is no longer, is accepted under the same limits, and reads as the same value.
    */
  lemma Normalises(text: Bytes, lim: ParseLimits)
    requires Parse(text, lim).Ok?
    ensures var v := Parse(text, lim).value;
            && Ordered(v) && |Canonical(v)| <= |text|
            && Parse(Canonical(v), lim) == Ok(v, |Canonical(v)|, Count(v))
  {
    ValueSound(text, lim, SkipSpace(text, 0), 0, 0);
    ParseOfCanonical(Parse(text, lim).value, lim);
  }

  /** The value count never passes the text's length, so the parser's counter cannot wrap. */
  lemma CountBounded(text: Bytes, lim: ParseLimits)
    requires Parse(text, lim).Ok?
    ensures Parse(text, lim).count <= |text|
  {
    var v := Parse(text, lim).value;
    ValueSound(text, lim, SkipSpace(text, 0), 0, 0);
    CountWithinLength(v);
  }

  lemma {:induction false} CountWithinLength(v: Value)
    ensures Count(v) <= |Canonical(v)|
    decreases v, 0
  {
    match v
    case Array(items) => CountItemsWithin(items, 0);
    case Object(members) => CountMembersWithin(members, 0);
    case _ =>
      FirstByte(v);
  }

  lemma {:induction false} CountItemsWithin(items: seq<Value>, i: nat)
    requires i <= |items|
    ensures CountItems(items, i) <= |ItemsFrom(items, i)|
    decreases items, |items| - i
  {
    if i < |items| {
      CountWithinLength(items[i]);
      CountItemsWithin(items, i + 1);
    }
  }

  lemma {:induction false} CountMembersWithin(members: seq<Member>, i: nat)
    requires i <= |members|
    ensures CountMembers(members, i) <= |MembersFrom(members, i)|
    decreases members, |members| - i
  {
    if i < |members| {
      CountWithinLength(members[i].value);
      CountMembersWithin(members, i + 1);
    }
  }

  // ----- unique readability -----

  lemma {:induction false} UniqueString(text: Bytes, pos: nat, s: Bytes, t: Bytes, i: nat)
    requires i <= |s| && i <= |t| && s[..i] == t[..i]
    requires At(text, pos, EscapedFrom(s, i)) && At(text, pos, EscapedFrom(t, i))
    ensures s == t
    decreases |s| - i
  {
    if i == |s| || i == |t| {
      AtByte(text, pos, [QUOTE], 0);
      assert Step(text, pos) == Close;
      if i < |s| {
        var next := EscapedHead(text, pos, s, i);
        assert false;
      }
      if i < |t| {
        var next := EscapedHead(text, pos, t, i);
        assert false;
      }
      assert s == s[..i] == t[..i] == t;
    } else {
      var next := EscapedHead(text, pos, s, i);
      var next' := EscapedHead(text, pos, t, i);
      assert [s[i]][0] == [t[i]][0];
      assert s[..i + 1] == s[..i] + [s[i]] == t[..i + 1];
      UniqueString(text, next, s, t, i + 1);
    }
  }

  lemma UniqueQuoted(text: Bytes, pos: nat, s: Bytes, t: Bytes)
    requires At(text, pos, Quoted(s)) && At(text, pos, Quoted(t))
    ensures s == t
  {
    AtConcat(text, pos, [QUOTE], EscapedFrom(s, 0));
    AtConcat(text, pos, [QUOTE], EscapedFrom(t, 0));
    UniqueString(text, pos + 1, s, t, 0);
  }

  lemma UniqueNumber(text: Bytes, pos: nat, n: uint64, m: uint64)
    requires At(text, pos, Decimal(n)) && Delimited(text, pos + |Decimal(n)|)
    requires At(text, pos, Decimal(m)) && Delimited(text, pos + |Decimal(m)|)
    ensures n == m
  {
    NumberExact(text, pos, 0, n);
    NumberExact(text, pos, 0, m);
  }

  /** The kind of a value shows in the first byte of its encoding. */
  lemma KindByFirstByte(a: Value, b: Value)
    requires Canonical(a) != [] && Canonical(b) != [] && Canonical(a)[0] == Canonical(b)[0]
    ensures (a.Null? <==> b.Null?) && (a.Boolean? <==> b.Boolean?) && (a.Unsigned? <==> b.Unsigned?)
    ensures (a.String? <==> b.String?) && (a.Array? <==> b.Array?) && (a.Object? <==> b.Object?)
    ensures a.Boolean? ==> a == b
  {
    if a.Unsigned? {
      DecimalRead(a.n);
    }
    if b.Unsigned? {
      DecimalRead(b.n);
    }
  }

  /** No two values have encodings at the same place of a text. */
  lemma {:induction false} UniqueReading(text: Bytes, pos: nat, a: Value, b: Value)
    requires At(text, pos, Canonical(a)) && Delimited(text, pos + |Canonical(a)|)
    requires At(text, pos, Canonical(b)) && Delimited(text, pos + |Canonical(b)|)
    ensures a == b
    decreases a, 0
  {
    NoSpaceAt(text, pos, a);
    NoSpaceAt(text, pos, b);
    KindByFirstByte(a, b);
    match a
    case Null =>
    case Boolean(_) =>
    case Unsigned(n) => UniqueNumber(text, pos, n, b.n);
    case String(s) => UniqueQuoted(text, pos, s, b.s);
    case Array(items) =>
      AtConcat(text, pos, [OPEN_BRACKET], ItemsFrom(items, 0));
      AtConcat(text, pos, [OPEN_BRACKET], ItemsFrom(b.items, 0));
      UniqueItems(text, pos + 1, items, b.items, 0);
    case Object(members) =>
      AtConcat(text, pos, [OPEN_BRACE], MembersFrom(members, 0));
      AtConcat(text, pos, [OPEN_BRACE], MembersFrom(b.members, 0));
      UniqueMembers(text, pos + 1, members, b.members, 0);
  }

  lemma {:induction false} UniqueItems(text: Bytes, pos: nat, x: seq<Value>, y: seq<Value>, i: nat)
    requires i <= |x| && i <= |y| && x[..i] == y[..i]
    requires At(text, pos, ItemsFrom(x, i)) && At(text, pos, ItemsFrom(y, i))
    ensures x == y
    decreases x, |x| - i
  {
    if i == |x| || i == |y| {
      AtByte(text, pos, [CLOSE_BRACKET], 0);
      if i < |x| {
        var start, after := ItemsHead(text, pos, x, i);
        assert false;
      }
      if i < |y| {
        var start, after := ItemsHead(text, pos, y, i);
        assert false;
      }
      assert x == x[..i] == y[..i] == y;
    } else {
      var start, after := ItemsHead(text, pos, x, i);
      var start', after' := ItemsHead(text, pos, y, i);
      UniqueReading(text, start, x[i], y[i]);
      assert x[..i + 1] == x[..i] + [x[i]] == y[..i + 1];
      UniqueItems(text, after, x, y, i + 1);
    }
  }

  /** One text holds one member at a place. */
  lemma {:induction false} UniqueMember(text: Bytes, pos: nat, a: Member, b: Member)
    requires At(text, pos, MemberText(a)) && Delimited(text, pos + |MemberText(a)|)
    requires At(text, pos, MemberText(b)) && Delimited(text, pos + |MemberText(b)|)
    ensures a == b
    decreases a, 1
  {
    var value := MemberHead(text, pos, a);
    var value' := MemberHead(text, pos, b);
    UniqueQuoted(text, pos, a.key, b.key);
    UniqueReading(text, value, a.value, b.value);
  }

  lemma SameEnd(text: Bytes, pos: nat, x: seq<Member>, y: seq<Member>, i: nat)
    requires i <= |x| && i <= |y|
    requires At(text, pos, MembersFrom(x, i)) && At(text, pos, MembersFrom(y, i))
    ensures i == |x| <==> i == |y|
  {
    MembersByte(text, pos, x, i);
    MembersByte(text, pos, y, i);
  }

  /** The next member is the same, and so is the place of what follows it. */
  lemma {:induction false} UniqueNext(text: Bytes, pos: nat, x: seq<Member>, y: seq<Member>, i: nat) returns (after: nat)
    requires i < |x| && i < |y|
    requires At(text, pos, MembersFrom(x, i)) && At(text, pos, MembersFrom(y, i))
    ensures x[i] == y[i] && At(text, after, MembersFrom(x, i + 1)) && At(text, after, MembersFrom(y, i + 1))
    decreases x, |x| - i, 0
  {
    var start, behind := MembersHead(text, pos, x, i);
    var start', behind' := MembersHead(text, pos, y, i);
    MembersByte(text, behind, x, i + 1);
    MembersByte(text, behind', y, i + 1);
    UniqueMember(text, start, x[i], y[i]);
    after := behind;
  }

  lemma {:induction false} UniqueMembers(text: Bytes, pos: nat, x: seq<Member>, y: seq<Member>, i: nat)
    requires i <= |x| && i <= |y| && x[..i] == y[..i]
    requires At(text, pos, MembersFrom(x, i)) && At(text, pos, MembersFrom(y, i))
    ensures x == y
    decreases x, |x| - i, 1
  {
    SameEnd(text, pos, x, y, i);
    if i == |x| {
      TakeAll(x);
      TakeAll(y);
    } else {
      var after := UniqueNext(text, pos, x, y, i);
      TakeOneMore(x, i);
      TakeOneMore(y, i);
      UniqueMembers(text, after, x, y, i + 1);
    }
  }

  /** The canonical encoding determines the value, UTF-8 or not. */
  lemma CanonicalInjective(a: Value, b: Value)
    requires Canonical(a) == Canonical(b)
    ensures a == b
  {
    AtWhole(Canonical(a));
    UniqueReading(Canonical(a), 0, a, b);
  }

  // ----- equal_values -----

  lemma {:induction false} EqualIsIdentity(a: Value, b: Value)
    ensures EqualValues(a, b) <==> a == b
    decreases a, 0
  {
    match (a, b)
    case (Array(x), Array(y)) =>
      if |x| == |y| {
        EqualItemsIsIdentity(x, y, 0);
        assert EqualItems(x, y, 0) ==> x == y;
      }
    case (Object(x), Object(y)) =>
      if |x| == |y| {
        EqualMembersIsIdentity(x, y, 0);
        assert EqualMembers(x, y, 0) ==> x == y;
      }
    case _ =>
  }

  lemma {:induction false} EqualItemsIsIdentity(a: seq<Value>, b: seq<Value>, i: nat)
    requires i <= |a| == |b|
    ensures EqualItems(a, b, i) <==> forall k :: i <= k < |a| ==> a[k] == b[k]
    decreases a, |a| - i
  {
    if i < |a| {
      EqualIsIdentity(a[i], b[i]);
      EqualItemsIsIdentity(a, b, i + 1);
    }
  }

  lemma {:induction false} EqualMembersIsIdentity(a: seq<Member>, b: seq<Member>, i: nat)
    requires i <= |a| == |b|
    ensures EqualMembers(a, b, i) <==> forall k :: i <= k < |a| ==> a[k] == b[k]
    decreases a, |a| - i
  {
    if i < |a| {
      EqualIsIdentity(a[i].value, b[i].value);
      EqualMembersIsIdentity(a, b, i + 1);
      assert a[i] == Member(a[i].key, a[i].value) && b[i] == Member(b[i].key, b[i].value);
    }
  }

  /** `equal_values` is the comparison of the canonical encodings. */
  lemma EqualIffSameEncoding(a: Value, b: Value)
    ensures EqualValues(a, b) <==> Canonical(a) == Canonical(b)
  {
    EqualIsIdentity(a, b);
    if Canonical(a) == Canonical(b) {
      CanonicalInjective(a, b);
    }
  }
}
