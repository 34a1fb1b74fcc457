/**
  * The canonical encoder writing into the digest sink: a 4096-byte buffer in front of the
  * streaming hash. The traversal is the template shared with the string sink.
  */
module JsonDigest {
  import opened Bytes
  import opened Sequences
  import opened Json
  import opened Sha256
  import opened Sha256Stream

  class CanonicalDigest {
    const digest: Sha256State
    const buffer: array<byte>
    var used: nat

    ghost predicate Valid()
      reads this, buffer, digest, digest.state, digest.block
    {
      && digest.Valid() && !digest.finished
      && buffer.Length == 4096 && used < 4096
      && buffer != digest.block
    }

    /** Everything appended so far. */
    ghost function Text(): Bytes
      reads this, buffer, digest, digest.block
      requires used <= buffer.Length && digest.blockSize <= digest.block.Length
    {
      digest.Message() + buffer[..used]
    }

    constructor ()
      ensures Valid() && Text() == []
      ensures fresh(digest) && fresh(buffer) && fresh(digest.state) && fresh(digest.block)
    {
      digest := new Sha256State();
      buffer := new byte[4096](_ => 0);
      used := 0;
    }

    method Flush()
      requires digest.Valid() && !digest.finished && buffer.Length == 4096 && used <= 4096 && buffer != digest.block
      modifies this`used, digest, digest.state, digest.block
      ensures Valid() && Text() == old(Text()) == digest.Message()
    {
      var ok := digest.Update(buffer[..used]);
      used := 0;
      assert buffer[..0] == [];
    }

    method Append(data: Bytes)
      requires Valid()
      modifies this, buffer, digest, digest.state, digest.block
      ensures Valid() && Text() == old(Text()) + data
    {
      ghost var before := Text();
      var offset := 0;
      assert before + data[..0] == before;
      while offset < |data|
        invariant 0 <= offset <= |data| && Valid()
        invariant Text() == before + data[..offset]
      {
        ghost var start := offset;
        offset := Fill(data, offset);
        assert data[..offset] == data[..start] + data[start..offset];
      }
      assert data[..offset] == data;
    }

    /** One turn of `append`: as many bytes as fit are copied, and a full buffer is flushed. */
    method Fill(data: Bytes, offset: nat) returns (next: nat)
      requires Valid() && offset < |data|
      modifies this, buffer, digest, digest.state, digest.block
      ensures Valid() && offset < next <= |data| && Text() == old(Text()) + data[offset..next]
    {
      var copied := if |data| - offset < 4096 - used then |data| - offset else 4096 - used;
      next := offset + copied;
      ghost var before := buffer[..used];
      forall k | 0 <= k < copied {
        buffer[used + k] := data[offset + k];
      }
      used := used + copied;
      assert buffer[..used] == before + data[offset..next];
      assert Text() == digest.Message() + (before + data[offset..next]) == old(Text()) + data[offset..next];
      if used == 4096 {
        Flush();
      }
    }

    method Finish() returns (hex: Bytes)
      requires Valid()
      modifies this, digest, digest.state, digest.block
      ensures |old(Text())| < 0x2000_0000_0000_0000 ==> hex == HexDigest(old(Text()))
    {
      Flush();
      var ok;
      ok, hex := digest.Finish();
    }
  }

  /** Bytes that `append_escaped` copies unchanged. */
  predicate Plain(b: byte) {
    b >= 0x20 && b != QUOTE && b != BACKSLASH
  }

  /** The escaped form of a run of plain bytes is the run itself. */
  lemma {:induction false} PlainRun(s: Bytes, i: nat, j: nat)
    requires i <= j <= |s| && forall k :: i <= k < j ==> Plain(s[k])
    ensures EscapedFrom(s, i) == s[i..j] + EscapedFrom(s, j)
    decreases j - i
  {
    if i < j {
      PlainRun(s, i + 1, j);
      assert EscapedByte(s[i]) == [s[i]];
      Associative([s[i]], s[i + 1..j], EscapedFrom(s, j));
      assert s[i..j] == [s[i]] + s[i + 1..j];
    } else {
      assert s[i..j] == [];
    }
  }

  method AppendEscaped(output: CanonicalDigest, value: Bytes)
    requires output.Valid()
    modifies output, output.buffer, output.digest, output.digest.state, output.digest.block
    ensures output.Valid() && output.Text() == old(output.Text()) + Quoted(value)
  {
    Associative(output.Text(), [QUOTE], EscapedFrom(value, 0));
    output.Append([QUOTE]);
    var plain := AppendRuns(output, value);
    AppendLastRun(output, value, plain);
  }

  /** The loop: everything up to the last escape, the plain run behind it left pending. */
  method AppendRuns(output: CanonicalDigest, value: Bytes) returns (plain: nat)
    requires output.Valid()
    modifies output, output.buffer, output.digest, output.digest.state, output.digest.block
    ensures output.Valid() && plain <= |value| && forall k :: plain <= k < |value| ==> Plain(value[k])
    ensures output.Text() + EscapedFrom(value, plain) == old(output.Text()) + EscapedFrom(value, 0)
  {
    plain := 0;
    var index := 0;
    while index < |value|
      invariant 0 <= plain <= index <= |value| && output.Valid()
      invariant forall k :: plain <= k < index ==> Plain(value[k])
      invariant output.Text() + EscapedFrom(value, plain) == old(output.Text()) + EscapedFrom(value, 0)
    {
      var ch := value[index];
      if ch >= 0x20 && ch != QUOTE && ch != BACKSLASH {
        index := index + 1;
        continue;
      }
      AppendRunAndEscape(output, value, plain, index);
      plain := index + 1;
      index := index + 1;
    }
  }

  /** The plain run at the end and the closing quote. */
  method AppendLastRun(output: CanonicalDigest, value: Bytes, plain: nat)
    requires output.Valid() && plain <= |value| && forall k :: plain <= k < |value| ==> Plain(value[k])
    modifies output, output.buffer, output.digest, output.digest.state, output.digest.block
    ensures output.Valid() && output.Text() == old(output.Text()) + EscapedFrom(value, plain)
  {
    PlainRun(value, plain, |value|);
    Associative(output.Text(), value[plain..|value|], [QUOTE]);
    output.Append(value[plain..|value|]);
    output.Append([QUOTE]);
  }

  /** The pending plain run and the escape that ends it. */
  method AppendRunAndEscape(output: CanonicalDigest, value: Bytes, plain: nat, index: nat)
    requires output.Valid() && plain <= index < |value| && !Plain(value[index])
    requires forall k :: plain <= k < index ==> Plain(value[k])
    modifies output, output.buffer, output.digest, output.digest.state, output.digest.block
    ensures output.Valid()
    ensures output.Text() + EscapedFrom(value, index + 1) == old(output.Text()) + EscapedFrom(value, plain)
  {
    ghost var before := output.Text();
    PlainRun(value, plain, index);
    output.Append(value[plain..index]);
    AppendEscape(output, value[index]);
    AssociativeFour(before, value[plain..index], EscapedByte(value[index]), EscapedFrom(value, index + 1));
  }

  /** The switch of `append_escaped`, for a byte that is not plain. */
  method AppendEscape(output: CanonicalDigest, ch: byte)
    requires output.Valid() && !Plain(ch)
    modifies output, output.buffer, output.digest, output.digest.state, output.digest.block
    ensures output.Valid() && output.Text() == old(output.Text()) + EscapedByte(ch)
  {
    if ch == QUOTE {
      output.Append([BACKSLASH, QUOTE]);
    } else if ch == BACKSLASH {
      output.Append([BACKSLASH, BACKSLASH]);
    } else if ch == 0x08 {
      output.Append([BACKSLASH, 0x62]);
    } else if ch == 0x0C {
      output.Append([BACKSLASH, 0x66]);
    } else if ch == 0x0A {
      output.Append([BACKSLASH, 0x6E]);
    } else if ch == 0x0D {
      output.Append([BACKSLASH, 0x72]);
    } else if ch == 0x09 {
      output.Append([BACKSLASH, 0x74]);
    } else {
      ghost var before := output.Text();
      output.Append([BACKSLASH, 0x75, 0x30, 0x30]);
      output.Append([HexDigit(ch / 16)]);
      output.Append([HexDigit(ch % 16)]);
      assert before + [BACKSLASH, 0x75, 0x30, 0x30] + [HexDigit(ch / 16)] + [HexDigit(ch % 16)] == before + EscapedByte(ch);
    }
  }

  method AppendCanonical(output: CanonicalDigest, value: Value)
    requires output.Valid()
    modifies output, output.buffer, output.digest, output.digest.state, output.digest.block
    ensures output.Valid() && output.Text() == old(output.Text()) + Canonical(value)
    decreases value, 0
  {
    match value
    case Null => output.Append(NULL_TEXT);
    case Boolean(b) => output.Append(if b then TRUE_TEXT else FALSE_TEXT);
    case Unsigned(n) => output.Append(Decimal(n));
    case String(s) => AppendEscaped(output, s);
    case Array(items) => AppendItems(output, items);
    case Object(members) => AppendMembers(output, members);
  }

  method AppendItems(output: CanonicalDigest, items: seq<Value>)
    requires output.Valid()
    modifies output, output.buffer, output.digest, output.digest.state, output.digest.block
    ensures output.Valid() && output.Text() == old(output.Text()) + Canonical(Array(items))
    decreases items
  {
    ghost var target := output.Text() + Canonical(Array(items));
    Associative(output.Text(), [OPEN_BRACKET], ItemsFrom(items, 0));
    output.Append([OPEN_BRACKET]);
    var i := 0;
    while i < |items|
      invariant 0 <= i <= |items| && output.Valid()
      invariant output.Text() + ItemsFrom(items, i) == target
    {
      ghost var before := output.Text();
      AppendSeparator(output, i);
      AppendCanonical(output, items[i]);
      AssociativeFour(before, Separator(i), Canonical(items[i]), ItemsFrom(items, i + 1));
      i := i + 1;
    }
    output.Append([CLOSE_BRACKET]);
  }

  method AppendMember(output: CanonicalDigest, member: Member)
    requires output.Valid()
    modifies output, output.buffer, output.digest, output.digest.state, output.digest.block
    ensures output.Valid() && output.Text() == old(output.Text()) + MemberText(member)
    decreases member, 1
  {
    ghost var before := output.Text();
    AppendEscaped(output, member.key);
    output.Append([COLON]);
    AppendCanonical(output, member.value);
    AssociativeFour(before, Quoted(member.key), [COLON], Canonical(member.value));
  }

  method AppendSeparator(output: CanonicalDigest, i: nat)
    requires output.Valid()
    modifies output, output.buffer, output.digest, output.digest.state, output.digest.block
    ensures output.Valid() && output.Text() == old(output.Text()) + Separator(i)
  {
    if i > 0 {
      output.Append([COMMA]);
    }
  }

  method AppendMembers(output: CanonicalDigest, members: seq<Member>)
    requires output.Valid()
    modifies output, output.buffer, output.digest, output.digest.state, output.digest.block
    ensures output.Valid() && output.Text() == old(output.Text()) + Canonical(Object(members))
    decreases members
  {
    ghost var target := output.Text() + Canonical(Object(members));
    Associative(output.Text(), [OPEN_BRACE], MembersFrom(members, 0));
    output.Append([OPEN_BRACE]);
    var i := 0;
    while i < |members|
      invariant 0 <= i <= |members| && output.Valid()
      invariant output.Text() + MembersFrom(members, i) == target
    {
      ghost var before := output.Text();
      AppendSeparator(output, i);
      AppendMember(output, members[i]);
      AssociativeFour(before, Separator(i), MemberText(members[i]), MembersFrom(members, i + 1));
      i := i + 1;
    }
    output.Append([CLOSE_BRACE]);
  }

  /** `sha256_canonical`: hashing through the buffer is hashing the canonical text. */
  method Sha256Canonical(value: Value) returns (hex: Bytes)
    ensures |Canonical(value)| < 0x2000_0000_0000_0000 ==> hex == HexDigest(Canonical(value))
  {
    var digest := new CanonicalDigest();
    AppendCanonical(digest, value);
    assert digest.Text() == Canonical(value);
    hex := digest.Finish();
  }
}
