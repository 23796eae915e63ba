/** Reading a payload piece by piece. */
module Readers {
  import opened Bytes
  import P = Primitives

  type int32 = v: int | IsInt32(v)

  /** A piece read off the front of some bytes, and the bytes behind it. */
  datatype Read<+T> = Fail | Got(value: T, rest: seq<byte>)

  /** What was taken off. */
  function Taken(s: seq<byte>, rest: seq<byte>): seq<byte>
    requires |rest| <= |s|
  {
    s[..|s| - |rest|]
  }

  function Piece(r: P.Parsed, s: seq<byte>): Read<int> {
    if r.Got? && 0 <= r.size <= |s| then Got(r.value, s[r.size..]) else Fail
  }

  function ReadI32(s: seq<byte>): (r: Read<int32>)
    ensures r.Got? ==> |r.rest| <= |s|
  {
    Piece(P.I32(s), s)
  }

  function ReadVarInt(s: seq<byte>): (r: Read<int32>)
    ensures r.Got? ==> |r.rest| <= |s|
  {
    Piece(P.VarInt32(s), s)
  }

  function ReadBool(s: seq<byte>): (r: Read<bool>)
    ensures r.Got? ==> |r.rest| <= |s|
  {
    var r := Piece(P.Bool(s), s);
    if r.Got? then Got(r.value != 0, r.rest) else Fail
  }

  function ReadU8(s: seq<byte>): (r: Read<nat>)
    ensures r.Got? ==> |r.rest| < |s| && r.value < 0x100
  {
    if s == [] then Fail else Got(s[0], s[1..])
  }

  /** Two bytes, most significant first. */
  function ReadU16(s: seq<byte>): (r: Read<nat>)
    ensures r.Got? ==> |r.rest| <= |s| && r.value < 0x1_0000
  {
    if |s| < 2 then Fail else
      var high: int, low: int := s[0], s[1];
      Got(high * 0x100 + low, s[2..])
  }

  function BoolBytes(b: bool): seq<byte> {
    [if b then 1 else 0]
  }

  /** Eight bytes, most significant first, as an unsigned number. */
  function ReadU64(s: seq<byte>): (r: Read<nat>)
    ensures r.Got? ==> r.value < WORD * WORD && |r.rest| <= |s|
  {
    if |s| < 8 then Fail
    else Got(P.Word(s[..4]).value * WORD + P.Word(s[4..8]).value, s[8..])
  }

  function U64Bytes(n: nat): (s: seq<byte>)
    requires n < WORD * WORD
    ensures |s| == 8
  {
    P.WordBytes(n / WORD) + P.WordBytes(n % WORD)
  }

  function ReadBytes(n: nat, s: seq<byte>): (r: Read<seq<byte>>)
    ensures r.Got? ==> |r.rest| <= |s| && r.value == Taken(s, r.rest) && |r.value| == n
  {
    if n <= |s| then Got(s[..n], s[n..]) else Fail
  }

  /** A VarInt length and that many bytes. */
  function ReadBuffer(s: seq<byte>): (r: Read<seq<byte>>)
    ensures r.Got? ==> |r.rest| <= |s| && |r.value| < 0x8000_0000
  {
    var n := ReadVarInt(s);
    if n.Fail? || n.value < 0 then Fail else ReadBytes(n.value, n.rest)
  }

  function BufferBytes(b: seq<byte>): seq<byte>
    requires |b| < 0x8000_0000
  {
    P.VarIntBytes(|b|) + b
  }

  lemma I32Back(v: int32, t: seq<byte>)
    ensures ReadI32(P.I32Bytes(v) + t) == Got(v, t)
  {
    P.I32ComesBack(v, t);
    assert (P.I32Bytes(v) + t)[4..] == t;
  }

  lemma VarIntBack(v: int32, t: seq<byte>)
    ensures ReadVarInt(P.VarIntBytes(v) + t) == Got(v, t)
  {
    P.VarIntComesBack(v, t);
    assert (P.VarIntBytes(v) + t)[|P.VarIntBytes(v)|..] == t;
  }

  lemma BoolBack(b: bool, t: seq<byte>)
    ensures ReadBool(BoolBytes(b) + t) == Got(b, t)
  {
    assert (BoolBytes(b) + t)[1..] == t;
  }

  lemma U64Back(n: nat, t: seq<byte>)
    requires n < WORD * WORD
    ensures ReadU64(U64Bytes(n) + t) == Got(n, t)
  {
    var high, low := n / WORD, n % WORD;
    var s := U64Bytes(n) + t;
    assert s[..4] == P.WordBytes(high) + [] && s[4..8] == P.WordBytes(low) + [] && s[8..] == t;
    P.WordComesBack(high, []);
    P.WordComesBack(low, []);
    assert high * WORD + low == n;
  }

  lemma BytesBack(b: seq<byte>, t: seq<byte>)
    ensures ReadBytes(|b|, b + t) == Got(b, t)
  {
  }

  lemma BufferBack(b: seq<byte>, t: seq<byte>)
    requires |b| < 0x8000_0000
    ensures ReadBuffer(BufferBytes(b) + t) == Got(b, t)
  {
    assert BufferBytes(b) + t == P.VarIntBytes(|b|) + (b + t);
    VarIntBack(|b|, b + t);
    BytesBack(b, t);
  }

  /** The first `n` bytes are the same. */
  ghost predicate Starts(s: seq<byte>, t: seq<byte>, n: nat) {
    n <= |s| && n <= |t| && s[..n] == t[..n]
  }

  lemma StartsBehind(s: seq<byte>, t: seq<byte>, k: nat, n: nat, s': seq<byte>, t': seq<byte>)
    requires k <= n && Starts(s, t, n) && s' == s[k..] && t' == t[k..]
    ensures Starts(s', t', n - k) && t'[n - k..] == t[n..]
  {
    assert s'[..n - k] == s[..n][k..] && t'[..n - k] == t[..n][k..];
  }

  lemma StartsBefore(s: seq<byte>, t: seq<byte>, k: nat, n: nat)
    requires k <= n && Starts(s, t, n)
    ensures Starts(s, t, k)
  {
    assert s[..k] == s[..n][..k] && t[..k] == t[..n][..k];
  }

  lemma SameAt(s: seq<byte>, t: seq<byte>, n: nat, k: nat)
    requires Starts(s, t, n) && k < n
    ensures s[k] == t[k]
  {
    assert s[k] == s[..n][k] && t[k] == t[..n][k];
  }

  lemma U8Stays(s: seq<byte>, t: seq<byte>)
    ensures StaysAt(ReadU8(s), s, ReadU8(t), t)
  {
    if s != [] && Starts(s, t, 1) { SameAt(s, t, 1, 0); }
  }

  lemma U16Stays(s: seq<byte>, t: seq<byte>)
    ensures StaysAt(ReadU16(s), s, ReadU16(t), t)
  {
    if |s| >= 2 && Starts(s, t, 2) {
      SameAt(s, t, 2, 0);
      SameAt(s, t, 2, 1);
    }
  }

  lemma I32Stays(s: seq<byte>, t: seq<byte>)
    ensures StaysAt(ReadI32(s), s, ReadI32(t), t)
  {
    if |s| >= 4 && Starts(s, t, 4) {
      SameAt(s, t, 4, 0);
      SameAt(s, t, 4, 1);
      SameAt(s, t, 4, 2);
      SameAt(s, t, 4, 3);
    }
  }

  lemma VarIntStays(s: seq<byte>, t: seq<byte>)
    ensures StaysAt(ReadVarInt(s), s, ReadVarInt(t), t)
  {
    var r := ReadVarInt(s);
    if r.Got? && Starts(s, t, |s| - |r.rest|) {
      assert s[..|s| - |r.rest|] <= t;
      P.VarIntIsLocal(s, t);
    }
  }

  lemma BytesStay(n: nat, s: seq<byte>, t: seq<byte>)
    ensures StaysAt(ReadBytes(n, s), s, ReadBytes(n, t), t)
  {

  }

  lemma Regroup(a: seq<byte>, b: seq<byte>, t: seq<byte>)
    ensures (a + b) + t == a + (b + t)
  {
  }

  /** `n` pieces of one kind, one after the other. */
  function ReadList<T>(one: seq<byte> -> Read<T>, n: nat, s: seq<byte>): (r: Read<seq<T>>)
    ensures r.Got? ==> |r.value| == n
  {
    if n == 0 then Got([], s) else
      var first := one(s);
      if first.Fail? then Fail else
        var more := ReadList(one, n - 1, first.rest);
        if more.Fail? then Fail else Got([first.value] + more.value, more.rest)
  }

  /** The reader takes bytes off the front, and what it makes of them depends on nothing else. */
  ghost predicate Stays<T(!new)>(one: seq<byte> -> Read<T>) {
    forall s, t :: StaysAt(one(s), s, one(t), t)
  }

  ghost predicate StaysAt<T>(r: Read<T>, s: seq<byte>, r': Read<T>, t: seq<byte>) {
    r.Got? ==>
      && |r.rest| <= |s|
      && r.rest == s[|s| - |r.rest|..]
      && (Starts(s, t, |s| - |r.rest|) ==> r' == Got(r.value, t[|s| - |r.rest|..]))
  }

  /** The bytes of `t` where those of `s` are down to `rest`. */
  function Behind(s: seq<byte>, t: seq<byte>, rest: seq<byte>): seq<byte> {
    if 0 <= |s| - |rest| <= |t| then t[|s| - |rest|..] else []
  }

  /** Two readings, the second of what the first leaves, make a reading of the same kind. */
  lemma BothStay<A, B, C>(s: seq<byte>, t: seq<byte>, p: Read<A>, p': Read<A>, q: Read<B>, q': Read<B>,
                          whole: Read<C>, whole': Read<C>)
    requires whole.Got? ==> p.Got? && StaysAt(p, s, p', t)
    requires whole.Got? ==> q.Got? && StaysAt(q, p.rest, q', Behind(s, t, p.rest)) && whole.rest == q.rest
    requires whole.Got? && p' == Got(p.value, Behind(s, t, p.rest)) && q'.Got? && q'.value == q.value
             ==> whole' == Got(whole.value, q'.rest)
    ensures StaysAt(whole, s, whole', t)
  {
    if whole.Got? {
      var k, n := |s| - |p.rest|, |s| - |q.rest|;
      assert p.rest[n - k..] == s[n..];
      if Starts(s, t, n) {
        StartsBefore(s, t, k, n);
        StartsBehind(s, t, k, n, p.rest, t[k..]);
      }
    }
  }

  lemma {:induction false} ListStays<T(!new)>(one: seq<byte> -> Read<T>, count: nat, s: seq<byte>, t: seq<byte>)
    requires Stays(one)
    ensures StaysAt(ReadList(one, count, s), s, ReadList(one, count, t), t)
  {
    if count == 0 {
      assert t[0..] == t && s[0..] == s;
    } else if one(s).Got? {
      var first := one(s);
      var t' := Behind(s, t, first.rest);
      assert StaysAt(first, s, one(t), t);
      ListStays(one, count - 1, first.rest, t');
      BothStay(s, t, first, one(t), ReadList(one, count - 1, first.rest), ReadList(one, count - 1, t'),
               ReadList(one, count, s), ReadList(one, count, t));
    }
  }

  /** A list that a loop has read part of: what the loop has and what is still to be read make the list. */
  ghost predicate Continues<T>(whole: Read<seq<T>>, sofar: seq<T>, more: Read<seq<T>>) {
    if more.Fail? then whole.Fail? else whole == Got(sofar + more.value, more.rest)
  }

  /** `n` pieces from `s` on are what is left to read. */
  ghost predicate LeftToRead<T>(one: seq<byte> -> Read<T>, n: nat, s: seq<byte>, whole: Read<seq<T>>, sofar: seq<T>) {
    Continues(whole, sofar, ReadList(one, n, s))
  }

  lemma ListStart<T>(one: seq<byte> -> Read<T>, n: nat, s: seq<byte>, whole: Read<seq<T>>)
    requires whole == ReadList(one, n, s)
    ensures LeftToRead(one, n, s, whole, [])
  {
    if whole.Got? { assert [] + whole.value == whole.value; }
  }

  lemma ListEnd<T>(one: seq<byte> -> Read<T>, s: seq<byte>, whole: Read<seq<T>>, sofar: seq<T>)
    requires LeftToRead(one, 0, s, whole, sofar)
    ensures whole == Got(sofar, s)
  {
    assert sofar + [] == sofar;
  }

  lemma ListStep<T>(one: seq<byte> -> Read<T>, n: nat, s: seq<byte>, whole: Read<seq<T>>, sofar: seq<T>)
    requires n > 0 && LeftToRead(one, n, s, whole, sofar)
    ensures one(s).Fail? ==> whole.Fail?
    ensures one(s).Got? ==> LeftToRead(one, n - 1, one(s).rest, whole, sofar + [one(s).value])
  {
    if one(s).Got? {
      var more := ReadList(one, n - 1, one(s).rest);
      if more.Got? { assert sofar + ([one(s).value] + more.value) == sofar + [one(s).value] + more.value; }
    }
  }

  /** The reader that the generated decoders pass over a payload: the bytes from its offset on. */
  class Reader {
    var rest: seq<byte>

    constructor (data: seq<byte>)
      ensures rest == data
    {
      rest := data;
    }

    /** The reader took off what `r` did, or could not. */
    ghost predicate Took<T>(r: Read<T>, ok: bool, value: T)
      reads this
    {
      ok == r.Got? && (ok ==> value == r.value && rest == r.rest)
    }

    method I32() returns (ok: bool, value: int32)
      modifies this
      ensures Took(ReadI32(old(rest)), ok, value)
    {
      var r := ReadI32(rest);
      if r.Fail? { return false, 0; }
      rest := r.rest;
      return true, r.value;
    }

    method VarInt() returns (ok: bool, value: int32)
      modifies this
      ensures Took(ReadVarInt(old(rest)), ok, value)
    {
      var r := ReadVarInt(rest);
      if r.Fail? { return false, 0; }
      rest := r.rest;
      return true, r.value;
    }

    method Bool() returns (ok: bool, value: bool)
      modifies this
      ensures Took(ReadBool(old(rest)), ok, value)
    {
      var r := ReadBool(rest);
      if r.Fail? { return false, false; }
      rest := r.rest;
      return true, r.value;
    }

    method U64() returns (ok: bool, value: nat)
      modifies this
      ensures Took(ReadU64(old(rest)), ok, value)
    {
      var r := ReadU64(rest);
      if r.Fail? { return false, 0; }
      rest := r.rest;
      return true, r.value;
    }

    method Bytes(size: nat) returns (ok: bool, value: seq<byte>)
      modifies this
      ensures Took(ReadBytes(size, old(rest)), ok, value)
    {
      var r := ReadBytes(size, rest);
      if r.Fail? { return false, []; }
      rest := r.rest;
      return true, r.value;
    }

    method Buffer() returns (ok: bool, value: seq<byte>)
      modifies this
      ensures Took(ReadBuffer(old(rest)), ok, value)
    {
      var size: int32;
      ok, size := VarInt();
      if !ok || size < 0 { return false, []; }
      ok, value := Bytes(size);
    }

    /** A loop that reads `count` pieces of one kind, and stops at the first that cannot be read. */
    method All<T>(one: seq<byte> -> Read<T>, count: nat) returns (ok: bool, values: seq<T>)
      modifies this
      ensures Took(ReadList(one, count, old(rest)), ok, values)
    {
      ghost var whole := ReadList(one, count, rest);
      ListStart(one, count, rest, whole);
      values := [];
      for index := 0 to count
        invariant LeftToRead(one, count - index, rest, whole, values)
      {
        var r := one(rest);
        ListStep(one, count - index, rest, whole, values);
        if r.Fail? { return false, []; }
        rest := r.rest;
        values := values + [r.value];
      }
      ListEnd(one, rest, whole, values);
      ok := true;
    }
  }
}
