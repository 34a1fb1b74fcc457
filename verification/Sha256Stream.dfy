/** The streaming hash object of the runtime. */
module Sha256Stream {
  import opened Bytes
  import opened Sha256

  const TWO64 := 0x1_0000_0000_0000_0000

  lemma AbsorbBlock(h: Hash, m: Bytes, block: Block)
    requires |m| % 64 == 0
    ensures |m + block| % 64 == 0 && Absorb(h, m + block) == Compress(Absorb(h, m), block)
  {
    var all := m + block;
    assert all[..|all| - 64] == m && all[|all| - 64..] == block;
  }

  lemma AddWraps(x: int, y: int)
    ensures Add(x % TWO32, y) == Add(x, y)
  {
  }

  lemma SumOfFour(a: int, b: int, c: int, d: int)
    ensures Add(Add(Add(a, b), c), d) == (a + b + c + d) % TWO32
  {
    AddWraps(a + b, c);
    AddWraps(a + b + c, d);
  }

  /** The source adds the four terms of a schedule word in the opposite order. */
  lemma ScheduleWordOf(block: Block, ws: seq<word>, t: nat, s0: word, s1: word)
    requires 16 <= t < 64 && ws == Schedule(block, t)
    requires s0 == SmallSigma0(ws[t - 15]) && s1 == SmallSigma1(ws[t - 2])
    ensures ScheduleWord(block, t) == Add(Add(Add(ws[t - 16], s0), ws[t - 7]), s1)
  {
    SumOfFour(ws[t - 16], s0, ws[t - 7], s1);
    SumOfFour(s1, ws[t - 7], s0, ws[t - 16]);
  }

  /** A byte count as the 64-bit field holds it. */
  function Wrapped(n: nat): uint64 {
    n % TWO64
  }

  function WrapAdd(x: uint64, n: nat): uint64 {
    Wrapped((x as int) + n)
  }

  lemma WrappedTotal(n: nat, k: nat)
    ensures WrapAdd(Wrapped(n), k) == Wrapped(n + k)
  {
  }

  /** `h` is the hash value after the blocks of `m`. */
  ghost predicate Chained(h: seq<word>, m: Bytes) {
    |m| % 64 == 0 && h == Absorb(H0, m)
  }

  lemma ChainBlock(h: Hash, m: Bytes, block: Block)
    requires Chained(h, m)
    ensures Chained(Compress(h, block), m + block)
  {
    AbsorbBlock(H0, m, block);
  }

  /** Zero bytes still to come before the length field, the buffer holding `size` bytes. */
  function PaddingLeft(size: nat): nat {
    if size <= 56 then 56 - size else if size <= 120 then 120 - size else 0
  }

  function Zeros(n: nat): Bytes {
    seq(n, _ => 0)
  }

  lemma Remainder(whole: nat, part: nat)
    requires whole % 64 == 0 && part < 64
    ensures (whole + part) % 64 == part
  {
    var q := whole / 64;
    assert whole + part == 64 * q + part;
  }

  lemma BitLength(n: nat)
    requires n < 0x2000_0000_0000_0000
    ensures Wrapped(Wrapped(n) as int * 8) == 8 * n
  {
  }

  lemma Padded(m: Bytes, final: Bytes, length: Bytes)
    requires |m| < 0x2000_0000_0000_0000 && length == BigEndian64(8 * |m|)
    requires final == m + [0x80] + Zeros(ZeroCount(|m|)) + length
    ensures final == Pad(m)
  {
  }

  lemma PaddingCount(n: nat, size: nat)
    requires size == (n + 1) % 64
    ensures PaddingLeft(size) == ZeroCount(n)
  {
  }

  lemma OneZeroLess(length: nat, size: nat, size': nat)
    requires size == length % 64 && size' == (length + 1) % 64 && size != 56
    ensures PaddingLeft(size) == PaddingLeft(size') + 1
  {
    assert size' == if size == 63 then 0 else size + 1;
  }

  /** The eight length bytes, most significant first, filled from the last one. */
  method LengthBytes(bitLength: uint64) returns (length: Bytes)
    ensures length == BigEndian64(bitLength)
  {
    length := seq(8, _ => 0);
    var index := 0;
    while index < 8
      invariant 0 <= index <= 8 && |length| == 8
      invariant forall k :: 8 - index <= k < 8 ==> length[k] == bitLength / Power256(7 - k) % 256
    {
      length := length[7 - index := bitLength / Power256(index) % 256];
      index := index + 1;
    }
  }

  class Sha256State {
    const state: array<word>
    const block: array<byte>
    var blockSize: nat
    var totalBytes: uint64
    var finished: bool
    // The bytes already compressed into `state`: a whole number of blocks.
    ghost var absorbed: Bytes

    ghost predicate Valid()
      reads this, state, block
    {
      && state.Length == 8 && block.Length == 64 && blockSize < 64
      && Chained(state[..], absorbed)
      && totalBytes == Wrapped(|Message()|)
    }

    /** Everything given to `update` so far; after `finish`, padding included. */
    ghost function Message(): Bytes
      reads this, block
      requires blockSize <= block.Length
    {
      absorbed + block[..blockSize]
    }

    constructor ()
      ensures Valid() && Message() == [] && !finished
      ensures fresh(state) && fresh(block)
    {
      var s := new word[8](i requires 0 <= i < 8 => H0[i]);
      state := s;
      block := new byte[64](_ => 0);
      blockSize := 0;
      totalBytes := 0;
      finished := false;
      absorbed := [];
      new;
      assert state[..] == H0;
    }

    /** The first loop of `transform`: sixteen big-endian words of the block. */
    method LoadWords(words: array<word>)
      requires block.Length == 64 && words.Length == 64
      modifies words
      ensures words[..16] == Schedule(block[..], 16)
    {
      ghost var b: Block := block[..];
      var index := 0;
      while index < 16
        invariant 0 <= index <= 16
        invariant words[..index] == Schedule(b, index)
      {
        var offset := index * 4;
        ghost var before := words[..index];
        words[index] := JoinBytes(block[offset], block[offset + 1], block[offset + 2], block[offset + 3]);
        assert words[..index + 1] == before + [words[index]];
        index := index + 1;
      }
    }

    /** The second loop: the other forty-eight words. */
    method ExtendWords(words: array<word>)
      requires block.Length == 64 && words.Length == 64
      requires words[..16] == Schedule(block[..], 16)
      modifies words
      ensures words[..] == Schedule(block[..], 64)
    {
      ghost var b: Block := block[..];
      var index := 16;
      while index < 64
        invariant 16 <= index <= 64
        invariant words[..index] == Schedule(b, index)
      {
        ghost var before := words[..index];
        var s0 := Xor(Xor(Rotr(words[index - 15], 7), Rotr(words[index - 15], 18)), Shr(words[index - 15], 3));
        var s1 := Xor(Xor(Rotr(words[index - 2], 17), Rotr(words[index - 2], 19)), Shr(words[index - 2], 10));
        ScheduleWordOf(b, before, index, s0, s1);
        words[index] := Add(Add(Add(words[index - 16], s0), words[index - 7]), s1);
        assert words[..index + 1] == before + [words[index]];
        index := index + 1;
      }
      assert words[..] == words[..64];
    }

    /** The round loop on the eight working variables. */
    method RunRounds(words: array<word>, constants: seq<word>, start: Vars) returns (v: Vars)
      requires words.Length == |constants| == 64
      ensures v == Rounds(start, constants, words[..], 64)
    {
      ghost var ws := words[..];
      var a, b, c, d := start.a, start.b, start.c, start.d;
      var e, f, g, h := start.e, start.f, start.g, start.h;
      var index := 0;
      while index < 64
        invariant 0 <= index <= 64
        invariant Vars(a, b, c, d, e, f, g, h) == Rounds(start, constants, ws, index)
      {
        var t1 := Add(Add(Add(Add(h, Xor(Xor(Rotr(e, 6), Rotr(e, 11)), Rotr(e, 25))), Xor(And(e, f), And(Not(e), g))),
                          constants[index]), words[index]);
        var t2 := Add(Xor(Xor(Rotr(a, 2), Rotr(a, 13)), Rotr(a, 22)), Xor(Xor(And(a, b), And(a, c)), And(b, c)));
        h, g, f, e, d, c, b, a := g, f, e, Add(d, t1), c, b, a, Add(t1, t2);
        index := index + 1;
      }
      v := Vars(a, b, c, d, e, f, g, h);
    }

    /** `transform`: the block buffer is compressed into the hash state. */
    method Transform()
      requires state.Length == 8 && block.Length == 64
      modifies state
      ensures state[..] == Compress(old(state[..]), block[..])
    {
      ghost var h: Hash := state[..];
      var words := new word[64](_ => 0);
      LoadWords(words);
      ExtendWords(words);
      var v := RunRounds(words, K, Vars(state[0], state[1], state[2], state[3], state[4], state[5], state[6], state[7]));
      var values := [v.a, v.b, v.c, v.d, v.e, v.f, v.g, v.h];
      var index := 0;
      while index < 8
        invariant 0 <= index <= 8
        invariant forall k :: 0 <= k < index ==> state[k] == Add(h[k], values[k])
        invariant forall k :: index <= k < 8 ==> state[k] == h[k]
      {
        state[index] := Add(state[index], values[index]);
        index := index + 1;
      }
      assert state[..] == Compress(h, block[..]);
    }

    /** `update`; `ok` is false where the source throws because the digest was already taken. */
    method Update(data: Bytes) returns (ok: bool)
      requires Valid()
      modifies this, state, block
      ensures Valid() && finished == old(finished) && ok == !finished
      ensures Message() == if ok then old(Message()) + data else old(Message())
    {
      if finished {
        return false;
      }
      ghost var before := Message();
      WrappedTotal(|before|, |data|);
      totalBytes := WrapAdd(totalBytes, |data|);
      ghost var total := totalBytes;
      var offset := 0;
      assert before + data[..0] == before;
      while offset < |data|
        invariant 0 <= offset <= |data| && !finished && blockSize < 64
        invariant totalBytes == total
        invariant Message() == before + data[..offset]
        invariant Chained(state[..], absorbed)
      {
        ghost var start := offset;
        offset := Fill(data, offset);
        assert data[..offset] == data[..start] + data[start..offset];
      }
      assert data[..offset] == data;
      return true;
    }

    /** One turn of `update`: as many bytes as fit are copied, and a full block is compressed. */
    method Fill(data: Bytes, offset: nat) returns (next: nat)
      requires offset < |data| && state.Length == 8 && block.Length == 64 && blockSize < 64
      requires Chained(state[..], absorbed)
      modifies this`blockSize, this`absorbed, state, block
      ensures offset < next <= |data| && blockSize < 64
      ensures Message() == old(Message()) + data[offset..next]
      ensures Chained(state[..], absorbed)
    {
      var count := if |data| - offset < 64 - blockSize then |data| - offset else 64 - blockSize;
      next := offset + count;
      ghost var before := block[..blockSize];
      forall k | 0 <= k < count {
        block[blockSize + k] := data[offset + k];
      }
      blockSize := blockSize + count;
      assert block[..blockSize] == before + data[offset..next];
      assert Message() == absorbed + (before + data[offset..next]) == old(Message()) + data[offset..next];
      if blockSize == 64 {
        FlushBlock();
      }
    }

    /** A full block is compressed and the buffer starts afresh. */
    method FlushBlock()
      requires state.Length == 8 && block.Length == 64 && blockSize == 64
      requires Chained(state[..], absorbed)
      modifies this`blockSize, this`absorbed, state
      ensures blockSize == 0 && Message() == old(Message()) && Chained(state[..], absorbed)
    {
      ChainBlock(state[..], absorbed, block[..]);
      Transform();
      assert block[..64] == block[..];
      absorbed := absorbed + block[..];
      blockSize := 0;
    }

    lemma {:induction false} SizeIsRemainder()
      requires Valid()
      ensures blockSize == |Message()| % 64
    {
      Remainder(|absorbed|, blockSize);
    }

    /** When a whole number of blocks has been given, the state is the hash value of all of them. */
    lemma {:induction false} WholeMessage()
      requires Valid() && |Message()| % 64 == 0
      ensures state[..] == Absorb(H0, Message())
    {
      SizeIsRemainder();
      assert block[..0] == [];
      assert Message() == absorbed;
    }

    /** The zero bytes of `finish`, one `update` each. */
    method PadZeros()
      requires Valid() && !finished
      modifies this, state, block
      ensures Valid() && !finished
      ensures Message() == old(Message()) + Zeros(PaddingLeft(old(blockSize)))
    {
      ghost var m := Message();
      ghost var target := PaddingLeft(blockSize);
      ghost var zeros: nat := 0;
      assert m + Zeros(0) == m;
      while blockSize != 56
        invariant Valid() && !finished
        invariant Message() == m + Zeros(zeros)
        invariant zeros + PaddingLeft(blockSize) == target
        decreases PaddingLeft(blockSize)
      {
        ghost var size := blockSize;
        SizeIsRemainder();
        ghost var length := |Message()|;
        var ok := Update([0]);
        SizeIsRemainder();
        OneZeroLess(length, size, blockSize);
        assert m + Zeros(zeros) + [0] == m + Zeros(zeros + 1);
        zeros := zeros + 1;
      }
    }

    /** `finish`: pads, appends the bit length and writes the hash value in hexadecimal. */
    /** The marker, the zeros and the length behind the message. */
    method AppendPadding()
      requires Valid() && !finished
      modifies this, state, block
      ensures Valid() && !finished
      ensures Message() == old(Message()) + [0x80] + Zeros(ZeroCount(|old(Message())|)) +
                           BigEndian64(Wrapped(old(totalBytes as int) * 8))
    {
      ghost var m := Message();
      var bitLength := Wrapped((totalBytes as int) * 8);
      var ok := Update([0x80]);
      SizeIsRemainder();
      PaddingCount(|m|, blockSize);
      PadZeros();
      var length := LengthBytes(bitLength);
      ok := Update(length);
    }

    method Finish() returns (ok: bool, digest: Bytes)
      requires Valid()
      modifies this, state, block
      ensures Valid() && ok == !old(finished) && finished
      ensures ok && |old(Message())| < 0x2000_0000_0000_0000 ==> digest == HexDigest(old(Message()))
    {
      digest := [];
      if finished {
        return false, digest;
      }
      ghost var m, total := Message(), totalBytes as int;
      AppendPadding();
      finished := true;
      digest := HexWords(state[..]);
      if |m| < 0x2000_0000_0000_0000 {
        BitLength(|m|);
        Padded(m, Message(), BigEndian64(Wrapped(total * 8)));
        WholeMessage();
      }
      return true, digest;
    }
  }
}
