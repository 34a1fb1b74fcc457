/** Raw bytes and escapes in one string literal: the first are never made whole by the second. */
module JsonStrings {
  import opened Bytes
  import opened Wrappers
  import opened Sequences
  import opened Utf8
  import opened Json
  import opened JsonParser

  /** What the rest of a literal decodes to; nothing where it is malformed. */
  function Decoded(text: Bytes, pos: nat): Option<Bytes>
    requires pos <= |text|
    decreases |text| - pos
  {
    if pos == |text| then None
    else
      match Step(text, pos)
      case Bad(_) => None
      case Close => Some([])
      case Emit(bytes, next) =>
        match Decoded(text, next)
        case None => None
        case Some(rest) => Some(bytes + rest)
  }

  /** Every maximal run of unescaped bytes is UTF-8 by itself, `run` being the one under way. */
  ghost predicate RunsValid(text: Bytes, pos: nat, run: Bytes)
    requires pos <= |text|
    decreases |text| - pos
  {
    pos < |text| &&
    match Step(text, pos)
    case Bad(_) => false
    case Close => IsUtf8(run)
    case Emit(bytes, next) =>
      if text[pos] == BACKSLASH then IsUtf8(run) && RunsValid(text, next, [])
      else RunsValid(text, next, run + bytes)
  }

  lemma {:induction false} StringIsDecoded(text: Bytes, lim: ParseLimits, pos: nat, count: nat, result: Bytes)
    requires pos <= |text|
    ensures ParseString(text, lim, pos, count, result).Ok? <==>
            Decoded(text, pos).Some? &&
            (var s := result + Decoded(text, pos).value; |s| <= lim.maxStringBytes && IsUtf8(s))
    decreases |text| - pos
  {
    if pos < |text| {
      match Step(text, pos)
      case Bad(_) =>
      case Close =>
        assert result + [] == result;
      case Emit(bytes, next) =>
        StringIsDecoded(text, lim, next, count, result + bytes);
        if Decoded(text, next).Some? {
          Associative(result, bytes, Decoded(text, next).value);
        }
    }
  }

  /** Every escape stands for one scalar value. */
  lemma EscapeEmitsScalar(text: Bytes, pos: nat) returns (cp: nat)
    requires pos < |text| && text[pos] == BACKSLASH && Step(text, pos).Emit?
    ensures IsScalar(cp) && Step(text, pos).bytes == Encode(cp)
  {
    var escaped := text[pos + 1];
    if escaped == 0x75 {
      cp := UnicodeEmitsScalar(text, pos + 2);
    } else {
      cp := Step(text, pos).bytes[0];
    }
  }

  lemma UnicodeEmitsScalar(text: Bytes, pos: nat) returns (cp: nat)
    requires UnicodeStep(text, pos).Emit?
    ensures IsScalar(cp) && UnicodeStep(text, pos).bytes == Encode(cp)
  {
    var code := HexCode(text, pos);
    if 0xD800 <= code <= 0xDBFF {
      cp := 0x10000 + (code - 0xD800) * 0x400 + (HexCode(text, pos + 6) - 0xDC00);
    } else {
      cp := code;
    }
  }

  /** A well-escaped literal decodes to UTF-8 exactly when each of its raw runs already is. */
  lemma {:induction false} RunsExact(text: Bytes, pos: nat, run: Bytes)
    requires pos <= |text| && Decoded(text, pos).Some?
    ensures RunsValid(text, pos, run) <==> IsUtf8(run + Decoded(text, pos).value)
    decreases |text| - pos
  {
    match Step(text, pos)
    case Close =>
      assert run + [] == run;
    case Emit(bytes, next) =>
      var rest := Decoded(text, next).value;
      Associative(run, bytes, rest);
      if text[pos] == BACKSLASH {
        var cp := EscapeEmitsScalar(text, pos);
        EscapeCannotRepair(run, cp, rest);
        RunsExact(text, next, []);
        EmptyPrefix(rest);
      } else {
        RunsExact(text, next, run + bytes);
      }
  }

  /** The parser accepts a literal exactly when it is well escaped, within its budget, and every raw run is UTF-8. */
  lemma LiteralAccepted(text: Bytes, lim: ParseLimits, pos: nat, count: nat)
    requires pos <= |text|
    ensures ParseString(text, lim, pos, count, []).Ok? <==>
            Decoded(text, pos).Some? && |Decoded(text, pos).value| <= lim.maxStringBytes && RunsValid(text, pos, [])
  {
    StringIsDecoded(text, lim, pos, count, []);
    if Decoded(text, pos).Some? {
      RunsExact(text, pos, []);
      EmptyPrefix(Decoded(text, pos).value);
    }
  }
}
