/** The NBT parser: mc_reader_nbt skips one value and yields the bytes it took. */
module Nbt {
  import opened Bytes
  import opened Wrappers
  import opened Readers

  // api.h limits.
  const MAX_DEPTH: nat := 64
  const MAX_COUNT: nat := 0x10_0000

  const END: nat := 0
  const LIST: nat := 9
  const COMPOUND: nat := 10
  const LONG_ARRAY: nat := 12

  function SkipBytes(n: nat, s: seq<byte>): (r: Read<()>)
    ensures r.Got? ==> |r.rest| <= |s|
  {
    var b := ReadBytes(n, s);
    if b.Fail? then Fail else Got((), b.rest)
  }

  /** mc_reader_nbt_name: a length of two bytes and that many bytes. */
  function SkipName(s: seq<byte>): (r: Read<()>)
    ensures r.Got? ==> |r.rest| <= |s|
  {
    var n := ReadU16(s);
    if n.Fail? then Fail else SkipBytes(n.value, n.rest)
  }

  function SkipArray(width: nat, s: seq<byte>): (r: Read<()>)
    ensures r.Got? ==> |r.rest| <= |s|
  {
    var n := ReadI32(s);
    if n.Fail? || n.value < 0 || n.value > MAX_COUNT then Fail else SkipBytes(n.value * width, n.rest)
  }

  /** How many bytes a scalar takes; None for the kinds that have a length of their own. */
  function ScalarWidth(kind: nat): Option<nat> {
    match kind
    case 1 => Some(1)
    case 2 => Some(2)
    case 3 | 5 => Some(4)
    case 4 | 6 => Some(8)
    case _ => None
  }

  function ElementWidth(kind: nat): Option<nat> {
    match kind
    case 7 => Some(1)
    case 11 => Some(4)
    case 12 => Some(8)
    case _ => None
  }

  function Levels(depth: nat): nat {
    if depth <= MAX_DEPTH then MAX_DEPTH + 1 - depth else 0
  }

  /** nbt_skip_value. */
  function SkipValue(kind: nat, depth: nat, s: seq<byte>): (r: Read<()>)
    ensures r.Got? ==> |r.rest| <= |s|
    decreases Levels(depth), 1, 0
  {
    if depth > MAX_DEPTH then Fail
    else if ScalarWidth(kind).Some? then SkipBytes(ScalarWidth(kind).value, s)
    else if ElementWidth(kind).Some? then SkipArray(ElementWidth(kind).value, s)
    else if kind == 8 then SkipName(s)
    else if kind == LIST then SkipList(depth + 1, s)
    else if kind == COMPOUND then SkipMembers(depth + 1, s)
    else Fail
  }

  /** A list of elements at `depth`: their kind, their number, and the elements. */
  function SkipList(depth: nat, s: seq<byte>): (r: Read<()>)
    ensures r.Got? ==> |r.rest| <= |s|
    decreases Levels(depth), 3, 0
  {
    var kind := ReadU8(s);
    if kind.Fail? then Fail else
      var n := ReadI32(kind.rest);
      if n.Fail? || n.value < 0 || n.value > MAX_COUNT || kind.value > LONG_ARRAY || (kind.value == END && n.value != 0)
      then Fail
      else SkipElements(kind.value, n.value, depth, n.rest)
  }

  function SkipElements(kind: nat, n: nat, depth: nat, s: seq<byte>): (r: Read<()>)
    ensures r.Got? ==> |r.rest| <= |s|
    decreases Levels(depth), 2, n
  {
    if n == 0 then Got((), s) else
      var first := SkipValue(kind, depth, s);
      if first.Fail? then Fail else SkipElements(kind, n - 1, depth, first.rest)
  }

  /** The members of a compound, each with its kind and name, up to the end mark. */
  function SkipMembers(depth: nat, s: seq<byte>): (r: Read<()>)
    ensures r.Got? ==> |r.rest| <= |s|
    decreases Levels(depth), 2, |s|
  {
    var kind := ReadU8(s);
    if kind.Fail? || kind.value > LONG_ARRAY then Fail
    else if kind.value == END then Got((), kind.rest)
    else
      var member := SkipMember(kind.value, depth, kind.rest);
      if member.Fail? then Fail else SkipMembers(depth, member.rest)
  }

  function SkipMember(kind: nat, depth: nat, s: seq<byte>): (r: Read<()>)
    ensures r.Got? ==> |r.rest| <= |s|
    decreases Levels(depth), 1, 1
  {
    var name := SkipName(s);
    if name.Fail? then Fail else SkipValue(kind, depth, name.rest)
  }

  /** mc_reader_nbt, without the bytes. */
  function SkipNbt(named: bool, s: seq<byte>): (r: Read<()>)
    ensures r.Got? ==> |r.rest| <= |s|
  {
    var root := ReadU8(s);
    if root.Fail? || root.value > LONG_ARRAY then Fail
    else if root.value == END then Got((), root.rest)
    else if named then SkipMember(root.value, 0, root.rest)
    else SkipValue(root.value, 0, root.rest)
  }

  /** How many bytes a value takes. */
  function Extent(named: bool, s: seq<byte>): (n: Option<nat>)
    ensures n.Some? ==> n.value <= |s|
  {
    var r := SkipNbt(named, s);
    if r.Fail? then None else Some(|s| - |r.rest|)
  }

  // An NBT value delimits itself.

  lemma SkipBytesStays(n: nat, s: seq<byte>, t: seq<byte>)
    ensures StaysAt(SkipBytes(n, s), s, SkipBytes(n, t), t)
  {
    BytesStay(n, s, t);
  }

  lemma NameStays(s: seq<byte>, t: seq<byte>)
    ensures StaysAt(SkipName(s), s, SkipName(t), t)
  {
    var n := ReadU16(s);
    if n.Got? {
      var t' := Behind(s, t, n.rest);
      U16Stays(s, t);
      SkipBytesStays(n.value, n.rest, t');
      BothStay(s, t, n, ReadU16(t), SkipBytes(n.value, n.rest), SkipBytes(n.value, t'), SkipName(s), SkipName(t));
    }
  }

  lemma ArrayStays(width: nat, s: seq<byte>, t: seq<byte>)
    ensures StaysAt(SkipArray(width, s), s, SkipArray(width, t), t)
  {
    var n := ReadI32(s);
    if n.Got? && n.value >= 0 {
      var t', size := Behind(s, t, n.rest), n.value * width;
      I32Stays(s, t);
      SkipBytesStays(size, n.rest, t');
      BothStay(s, t, n, ReadI32(t), SkipBytes(size, n.rest), SkipBytes(size, t'), SkipArray(width, s),
               SkipArray(width, t));
    }
  }

  lemma {:induction false} ValueStays(kind: nat, depth: nat, s: seq<byte>, t: seq<byte>)
    ensures StaysAt(SkipValue(kind, depth, s), s, SkipValue(kind, depth, t), t)
    decreases Levels(depth), 1, 0
  {
    if depth <= MAX_DEPTH {
      if ScalarWidth(kind).Some? { SkipBytesStays(ScalarWidth(kind).value, s, t); }
      else if ElementWidth(kind).Some? { ArrayStays(ElementWidth(kind).value, s, t); }
      else if kind == 8 { NameStays(s, t); }
      else if kind == LIST { SkipListStays(depth + 1, s, t); }
      else if kind == COMPOUND { MembersStay(depth + 1, s, t); }
    }
  }

  lemma {:induction false} SkipListStays(depth: nat, s: seq<byte>, t: seq<byte>)
    ensures StaysAt(SkipList(depth, s), s, SkipList(depth, t), t)
    decreases Levels(depth), 4, 0
  {
    var kind := ReadU8(s);
    if kind.Got? {
      var t' := Behind(s, t, kind.rest);
      U8Stays(s, t);
      CountStays(kind.value, depth, kind.rest, t');
      BothStay(s, t, kind, ReadU8(t), SkipCounted(kind.value, depth, kind.rest), SkipCounted(kind.value, depth, t'),
               SkipList(depth, s), SkipList(depth, t));
    }
  }

  /** A list from its number of elements on. */
  function SkipCounted(kind: nat, depth: nat, s: seq<byte>): Read<()> {
    var n := ReadI32(s);
    if n.Fail? || n.value < 0 || n.value > MAX_COUNT || kind > LONG_ARRAY || (kind == END && n.value != 0) then Fail
    else SkipElements(kind, n.value, depth, n.rest)
  }

  lemma {:induction false} CountStays(kind: nat, depth: nat, s: seq<byte>, t: seq<byte>)
    ensures StaysAt(SkipCounted(kind, depth, s), s, SkipCounted(kind, depth, t), t)
    decreases Levels(depth), 3, 0
  {
    var n := ReadI32(s);
    if n.Got? && n.value >= 0 {
      var t' := Behind(s, t, n.rest);
      I32Stays(s, t);
      ElementsStay(kind, n.value, depth, n.rest, t');
      BothStay(s, t, n, ReadI32(t), SkipElements(kind, n.value, depth, n.rest), SkipElements(kind, n.value, depth, t'),
               SkipCounted(kind, depth, s), SkipCounted(kind, depth, t));
    }
  }

  lemma {:induction false} ElementsStay(kind: nat, n: nat, depth: nat, s: seq<byte>, t: seq<byte>)
    ensures StaysAt(SkipElements(kind, n, depth, s), s, SkipElements(kind, n, depth, t), t)
    decreases Levels(depth), 2, n
  {
    if n == 0 {
      assert t[0..] == t && s[0..] == s;
    } else {
      var first := SkipValue(kind, depth, s);
      if first.Got? {
        var t' := Behind(s, t, first.rest);
        ValueStays(kind, depth, s, t);
        ElementsStay(kind, n - 1, depth, first.rest, t');
        BothStay(s, t, first, SkipValue(kind, depth, t), SkipElements(kind, n - 1, depth, first.rest),
                 SkipElements(kind, n - 1, depth, t'), SkipElements(kind, n, depth, s), SkipElements(kind, n, depth, t));
      }
    }
  }

  lemma {:induction false} MemberStays(kind: nat, depth: nat, s: seq<byte>, t: seq<byte>)
    ensures StaysAt(SkipMember(kind, depth, s), s, SkipMember(kind, depth, t), t)
    decreases Levels(depth), 1, 1
  {
    var name := SkipName(s);
    if name.Got? {
      var t' := Behind(s, t, name.rest);
      NameStays(s, t);
      ValueStays(kind, depth, name.rest, t');
      BothStay(s, t, name, SkipName(t), SkipValue(kind, depth, name.rest), SkipValue(kind, depth, t'),
               SkipMember(kind, depth, s), SkipMember(kind, depth, t));
    }
  }

  /** The members from one on, whose kind has been read. */
  function SkipFrom(kind: nat, depth: nat, s: seq<byte>): Read<()> {
    if kind > LONG_ARRAY then Fail
    else if kind == END then Got((), s)
    else
      var member := SkipMember(kind, depth, s);
      if member.Fail? then Fail else SkipMembers(depth, member.rest)
  }

  lemma {:induction false} MembersStay(depth: nat, s: seq<byte>, t: seq<byte>)
    ensures StaysAt(SkipMembers(depth, s), s, SkipMembers(depth, t), t)
    decreases Levels(depth), 2, |s|, 0
  {
    var kind := ReadU8(s);
    if kind.Got? {
      var t' := Behind(s, t, kind.rest);
      U8Stays(s, t);
      FromStays(kind.value, depth, kind.rest, t');
      BothStay(s, t, kind, ReadU8(t), SkipFrom(kind.value, depth, kind.rest), SkipFrom(kind.value, depth, t'),
               SkipMembers(depth, s), SkipMembers(depth, t));
    }
  }

  lemma {:induction false} FromStays(kind: nat, depth: nat, s: seq<byte>, t: seq<byte>)
    ensures StaysAt(SkipFrom(kind, depth, s), s, SkipFrom(kind, depth, t), t)
    decreases Levels(depth), 2, |s|, 1
  {
    var member := SkipMember(kind, depth, s);
    if kind == END {
      assert t[0..] == t && s[0..] == s;
    } else if kind <= LONG_ARRAY && member.Got? {
      var t' := Behind(s, t, member.rest);
      MemberStays(kind, depth, s, t);
      MembersStay(depth, member.rest, t');
      BothStay(s, t, member, SkipMember(kind, depth, t), SkipMembers(depth, member.rest), SkipMembers(depth, t'),
               SkipFrom(kind, depth, s), SkipFrom(kind, depth, t));
    }
  }

  /** Behind the root's kind. */
  function SkipRoot(named: bool, kind: nat, s: seq<byte>): Read<()> {
    if kind > LONG_ARRAY then Fail
    else if kind == END then Got((), s)
    else if named then SkipMember(kind, 0, s)
    else SkipValue(kind, 0, s)
  }

  lemma RootStays(named: bool, kind: nat, s: seq<byte>, t: seq<byte>)
    ensures StaysAt(SkipRoot(named, kind, s), s, SkipRoot(named, kind, t), t)
  {
    assert t[0..] == t && s[0..] == s;
    MemberStays(kind, 0, s, t);
    ValueStays(kind, 0, s, t);
  }

  /** A value depends only on the bytes it takes, whatever stands behind them. */
  lemma NbtStays(named: bool, s: seq<byte>, t: seq<byte>)
    ensures StaysAt(SkipNbt(named, s), s, SkipNbt(named, t), t)
  {
    var root := ReadU8(s);
    if root.Got? {
      var t' := Behind(s, t, root.rest);
      U8Stays(s, t);
      RootStays(named, root.value, root.rest, t');
      BothStay(s, t, root, ReadU8(t), SkipRoot(named, root.value, root.rest), SkipRoot(named, root.value, t'),
               SkipNbt(named, s), SkipNbt(named, t));
    }
  }
}
