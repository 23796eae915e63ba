/** Reading and writing the primitives that manifest packets are made of, on the bytes that remain. */
module Primitives {
  import opened Bytes
  import VarInt

  datatype Parsed = NoValue | Got(value: int, size: nat)

  /** A read that consumes no more than there is, and that depends on nothing but what it consumes. */
  ghost predicate Local(r: Parsed, s: seq<byte>, r': Parsed, t: seq<byte>) {
    r.Got? ==> 0 < r.size <= |s| && (s[..r.size] <= t ==> r' == r)
  }

  function U8(s: seq<byte>): (r: Parsed) {
    if s == [] then NoValue else Got(s[0], 1)
  }

  /** In the compatible mode, any byte but 0 is true. */
  function Bool(s: seq<byte>): (r: Parsed) {
    if s == [] then NoValue else Got(if s[0] == 0 then 0 else 1, 1)
  }

  /** Four bytes, most significant first. */
  function WordBytes(n: nat): (s: seq<byte>)
    requires n < WORD
    ensures |s| == 4
  {
    var high: int, middle: int := n / 0x1_0000, n / 0x100;
    [n / 0x100_0000, high % 0x100, middle % 0x100, n % 0x100]
  }

  function Word(s: seq<byte>): (r: Parsed)
    ensures r.Got? ==> 0 <= r.value < WORD && r.size == 4
  {
    if |s| < 4 then NoValue else
      var a: int, b: int, c: int, d: int := s[0], s[1], s[2], s[3];
      Got(a * 0x100_0000 + b * 0x1_0000 + c * 0x100 + d, 4)
  }

  function I32Bytes(v: int): (s: seq<byte>)
    requires IsInt32(v)
    ensures |s| == 4
  {
    WordBytes(ToUnsigned(v))
  }

  function I32(s: seq<byte>): (r: Parsed)
    ensures r.Got? ==> IsInt32(r.value)
  {
    var w := Word(s);
    if w.Got? then Got(ToSigned(w.value), 4) else NoValue
  }

  function VarIntBytes(v: int): (s: seq<byte>)
    requires IsInt32(v)
    ensures s != []
  {
    VarInt.Encode(ToUnsigned(v))
  }

  /** mc_reader_varint in the compatible mode: a fifth byte has room for four bits. */
  function VarInt32(s: seq<byte>): (r: Parsed)
    ensures r.Got? ==> IsInt32(r.value)
  {
    var d := VarInt.DecodeUnder(s, VarInt.MAX_BYTES, 0x0f);
    if d.NotDecoded? then NoValue
    else
      WordHolds(s);
      Got(ToSigned(d.value), d.size)
  }

  lemma WordHolds(s: seq<byte>)
    ensures var d := VarInt.DecodeUnder(s, VarInt.MAX_BYTES, 0x0f);
            d.Decoded? ==> d.value < WORD
  {
    VarInt.UnderIsDecode(s);
  }

  /** Not all ones in the exponent of a binary32 pattern (section 3.4 of IEEE 754-2019). */
  predicate IsFinite32(bits: nat) {
    bits / 0x80_0000 % 0x100 != 0xff
  }

  lemma WordComesBack(n: nat, t: seq<byte>)
    requires n < WORD
    ensures Word(WordBytes(n) + t) == Got(n, 4)
  {
    FourDigits(n);
    var s := WordBytes(n) + t;
    assert s[0] == n / 0x100_0000 && s[1] == n / 0x1_0000 % 0x100 && s[2] == n / 0x100 % 0x100 && s[3] == n % 0x100;
  }

  lemma FourDigits(n: nat)
    ensures n == n / 0x100_0000 * 0x100_0000 + n / 0x1_0000 % 0x100 * 0x1_0000 + n / 0x100 % 0x100 * 0x100 + n % 0x100
  {
    assert n / 0x1_0000 == n / 0x100 / 0x100 && n / 0x100_0000 == n / 0x1_0000 / 0x100;
  }

  lemma I32ComesBack(v: int, t: seq<byte>)
    requires IsInt32(v)
    ensures I32(I32Bytes(v) + t) == Got(v, 4)
  {
    WordComesBack(ToUnsigned(v), t);
  }

  lemma VarIntComesBack(v: int, t: seq<byte>)
    requires IsInt32(v)
    ensures VarInt32(VarIntBytes(v) + t) == Got(v, |VarIntBytes(v)|)
  {
    VarInt.ScaleValues();
    VarInt.UnderInvertsEncode(ToUnsigned(v), t, VarInt.MAX_BYTES, 0x0f);
  }

  lemma VarIntIsLocal(s: seq<byte>, t: seq<byte>)
    ensures Local(VarInt32(s), s, VarInt32(t), t)
  {
    var d := VarInt.DecodeUnder(s, VarInt.MAX_BYTES, 0x0f);
    if d.Decoded? && s[..d.size] <= t { VarInt.UnderIsLocal(s, t, VarInt.MAX_BYTES, 0x0f); }
  }

  /** The bytes `s` were added. */
  ghost predicate Wrote(before: seq<byte>, s: seq<byte>, after: seq<byte>) {
    after == before + s
  }

  lemma WroteBoth(before: seq<byte>, a: seq<byte>, between: seq<byte>, b: seq<byte>, after: seq<byte>)
    requires Wrote(before, a, between) && Wrote(between, b, after)
    ensures Wrote(before, a + b, after)
  {
    assert before + a + b == before + (a + b);
  }

  /** A packet under construction, in a buffer of fixed capacity. A write that does not fit fails the packet for
    * good. */
  class PacketWriter {
    const capacity: nat
    var data: seq<byte>
    var failed: bool

    ghost predicate Valid()
      reads this
    {
      |data| <= capacity
    }

    constructor (capacity: nat)
      ensures Valid() && this.capacity == capacity && data == [] && !failed
    {
      this.capacity := capacity;
      data, failed := [], false;
    }

    method Append(s: seq<byte>) returns (ok: bool)
      requires Valid()
      modifies this
      ensures Valid() && failed == !ok
      ensures ok <==> !old(failed) && |old(data)| + |s| <= capacity
      ensures if ok then Wrote(old(data), s, data) else data == old(data)
    {
      ok := !failed && |data| + |s| <= capacity;
      if ok { data := data + s; } else { failed := true; }
    }
  }
}
