/** Reading and building JSON objects by key, as the command layer does. */
module JsonObject {
  import opened Sequences
  import opened Bytes
  import opened Wrappers
  import opened Json
  import opened JsonParser

  /** A literal of the source as the bytes of a `std::string`. */
  function Ascii(s: string): (r: Bytes)
    ensures |r| == |s|
  {
    seq(|s|, i requires 0 <= i < |s| => s[i] as int % 0x100)
  }

  function Lookup(members: seq<Member>, key: Bytes): Option<Value> {
    if members == [] then None
    else if members[0].key == key then Some(members[0].value)
    else Lookup(members[1..], key)
  }

  /** `Value::at`: nothing where the source throws. */
  function Get(v: Value, key: Bytes): Option<Value> {
    if v.Object? then Lookup(v.members, key) else None
  }

  /** `std::map::emplace`: an existing key keeps its value. */
  function Emplace(members: seq<Member>, m: Member): seq<Member> {
    if HasKey(members, m.key) then members else Insert(members, m)
  }

  lemma {:induction false} LookupSplit(a: seq<Member>, b: seq<Member>, key: Bytes)
    ensures Lookup(a + b, key) == if HasKey(a, key) then Lookup(a, key) else Lookup(b, key)
    ensures HasKey(a, key) <==> Lookup(a, key).Some?
  {
    if a == [] {
      EmptyPrefix(b);
    } else {
      TailOfConcat(a, b);
      LookupSplit(a[1..], b, key);
    }
  }

  /** After an emplacement, the new key reads as given unless it was there; all others as before. */
  lemma LookupEmplace(members: seq<Member>, m: Member, key: Bytes)
    ensures Lookup(Emplace(members, m), key) ==
            if key == m.key && !HasKey(members, key) then Some(m.value) else Lookup(members, key)
  {
    if !HasKey(members, m.key) {
      var i := Slot(members, m.key);
      var a, b := members[..i], members[i..];
      SplitAt(members, i);
      LookupSplit(a, b, key);
      LookupSplit(a + [m], b, key);
      LookupSplit(a, [m], key);
      LookupSplit(members, [], key);
      if key == m.key {
        KeyAbsentBefore(members, i, key);
      }
      assert [m][1..] == [];
      assert HasKey(a + [m], key) <==> HasKey(a, key) || key == m.key by {
        LookupSplit(a + [m], [], key);
      }
    }
  }

  lemma KeyAbsentBefore(members: seq<Member>, i: nat, key: Bytes)
    requires i <= |members| && !HasKey(members, key)
    ensures !HasKey(members[..i], key) && !HasKey(members[i..], key)
  {
    HasKeyAt(members, key);
    HasKeyAt(members[..i], key);
    HasKeyAt(members[i..], key);
  }

  /** An object built by emplacing pairs one after the other. */
  function FromPairs(pairs: seq<Member>): seq<Member> {
    if pairs == [] then [] else Emplace(FromPairs(pairs[..|pairs| - 1]), pairs[|pairs| - 1])
  }

  /** Reading such an object finds the first pair with the key. */
  lemma {:induction false} LookupPairs(pairs: seq<Member>, key: Bytes)
    ensures Lookup(FromPairs(pairs), key) == Lookup(pairs, key)
    ensures HasKey(FromPairs(pairs), key) <==> HasKey(pairs, key)
    decreases |pairs|
  {
    if pairs != [] {
      var front, last := pairs[..|pairs| - 1], pairs[|pairs| - 1];
      LookupPairs(front, key);
      LookupEmplace(FromPairs(front), last, key);
      FrontAndLast(pairs);
      LookupSplit(front, [last], key);
      assert [last][1..] == [];
    }
    LookupSplit(FromPairs(pairs), [], key);
    LookupSplit(pairs, [], key);
  }

  /** The first member with a key is the one read. */
  lemma {:induction false} LookupFirst(members: seq<Member>, i: nat)
    requires i < |members| && forall k :: 0 <= k < i ==> members[k].key != members[i].key
    ensures Lookup(members, members[i].key) == Some(members[i].value)
    decreases i
  {
    if i > 0 {
      assert members[1..][i - 1] == members[i];
      LookupFirst(members[1..], i - 1);
    }
  }
}
