/** The readers of api.c that component validators call, in both decode modes, and that they keep the contract of
  * `Wire`. The nested item parser is a parameter here: `NestedItems` supplies it. */
module Runtime {
  import opened Bytes
  import opened Wire
  import P = Primitives
  import V = VarInt
  import Nbt

  datatype Mode = Compatible | Strict

  // api.h limits.
  const MAX_STRING_BYTES: nat := 0x10_0000

  const UUID_BYTES: nat := 16
  const POSITION_BYTES: nat := 8

  /** Big-endian, unsigned. */
  function Big(s: seq<byte>): nat {
    if s == [] then 0 else 0x100 * Big(s[..|s| - 1]) + s[|s| - 1]
  }

  function Limit(width: nat): (n: nat)
    ensures n > 0
  {
    if width == 0 then 1 else 0x100 * Limit(width - 1)
  }

  lemma {:induction false} BigIsBelow(s: seq<byte>)
    ensures Big(s) < Limit(|s|)
  {
    if s != [] { BigIsBelow(s[..|s| - 1]); }
  }

  lemma Limits()
    ensures Limit(1) == 0x100 && Limit(2) == 0x1_0000 && Limit(4) == 0x1_0000_0000
    ensures Limit(8) == 0x1_0000_0000_0000_0000
  {
    assert Limit(2) == 0x100 * Limit(1);
    assert Limit(3) == 0x100 * Limit(2);
    assert Limit(4) == 0x100 * Limit(3);
    assert Limit(5) == 0x100 * Limit(4);
    assert Limit(6) == 0x100 * Limit(5);
    assert Limit(7) == 0x100 * Limit(6);
    assert Limit(8) == 0x100 * Limit(7);
  }

  /** The two's complement reading of a number below `limit`. */
  function Signed(n: nat, limit: nat): int {
    if 2 * n < limit then n else n - limit
  }

  function Width(p: Prim): nat {
    match p
    case Bool | I8 | U8 => 1
    case I16 | U16 => 2
    case I32 | U32 | F32 => 4
    case I64 | U64 | F64 => 8
    case _ => 0
  }

  /** `x` with `k` binary digits more, or with so many less. */
  function Shifted(x: nat, k: int): nat
    decreases if k < 0 then -k else k
  {
    if k == 0 then x else if k > 0 then 2 * Shifted(x, k - 1) else Shifted(x / 2, k + 1)
  }

  /** Shifting cuts off no digit but 0. */
  predicate ShiftsWhole(x: nat, k: int)
    decreases if k < 0 then -k else k
  {
    k >= 0 || (x % 2 == 0 && ShiftsWhole(x / 2, k + 1))
  }

  /** The last `k` binary digits. */
  function Low(x: nat, k: nat): nat {
    if k == 0 then 0 else x % 2 + 2 * Low(x / 2, k - 1)
  }

  /** The number that an IEEE 754 pattern stands for (section 3.4 of IEEE 754-2019), with a fraction of `bits` bits
    * behind an exponent of `width` bits behind the sign. */
  function FloatOf(n: nat, bits: int, width: int): Value
    requires bits >= 0 && width > 0
  {
    var fraction, exponent, negative := Low(n, bits), Low(Shifted(n, -bits), width), Shifted(n, -bits - width) % 2 == 1;
    var one, half: int := Shifted(1, bits), Shifted(1, width - 1);
    var bias := half - 1;
    if exponent == 2 * bias + 1 then NotFinite else
      var significand := if exponent == 0 then fraction else fraction + one;
      var scale: int := (if exponent == 0 then 1 else exponent) - bias - bits;
      var size: int := Shifted(significand, scale);
      Finite(if negative then -size else size, negative && significand > 0, ShiftsWhole(significand, scale))
  }

  function ValueOf(p: Prim, n: nat): Value {
    match p
    case Bool => Whole(p, if n == 0 then 0 else 1)
    case I8 | I16 | I32 | I64 => Whole(p, Signed(n, Limit(Width(p))))
    case F32 => FloatOf(n, 23, 8)
    case F64 => FloatOf(n, 52, 11)
    case _ => Whole(p, n)
  }

  /** mc_reader_bool to mc_reader_double. In strict mode a truth value is 0 or 1. */
  function ReadFixed(mode: Mode, p: Prim, s: seq<byte>): Parsed {
    if |s| < Width(p) then NoParse else
      var n := Big(s[..Width(p)]);
      if mode.Strict? && p.Bool? && n > 1 then NoParse else Parsed(ValueOf(p, n), Width(p))
  }

  /** mc_reader_varint. In strict mode only the shortest encoding will do. */
  function ReadVarInt(mode: Mode, s: seq<byte>): (r: Parsed)
    ensures r.Parsed? ==> r.size <= |s| && r.value.Whole? && r.value.prim == VarInt && IsInt32(r.value.number)
  {
    var r := P.VarInt32(s);
    if r.NoValue? || (mode.Strict? && r.size != |P.VarIntBytes(r.value)|) then NoParse
    else Parsed(Whole(VarInt, r.value), r.size)
  }

  /** mc_reader_varlong: ten bytes at most, the tenth with room for one bit. */
  function ReadVarLong(mode: Mode, s: seq<byte>): Parsed {
    var d := V.DecodeUnder(s, 10, 1);
    if d.NotDecoded? || (mode.Strict? && d.size != |V.Encode(d.value)|) then NoParse
    else Parsed(Whole(VarLong, Signed(d.value, Limit(8))), d.size)
  }

  /** mc_reader_string. */
  function ReadString(mode: Mode, s: seq<byte>): Parsed {
    var n := ReadVarInt(mode, s);
    if n.NoParse? || !(0 <= n.value.number <= MAX_STRING_BYTES) || n.size + n.value.number > |s| then NoParse
    else Parsed(Uninspected, n.size + n.value.number)
  }

  function ReadBlock(size: nat, s: seq<byte>): Parsed {
    if |s| < size then NoParse else Parsed(Uninspected, size)
  }

  function ReadNbt(s: seq<byte>): Parsed {
    var n := Nbt.Extent(false, s);
    if n.None? then NoParse else Parsed(Uninspected, n.value)
  }

  /** `known` is whether the runtime supports the protocol whose position format is read. */
  function ReadPrim(mode: Mode, known: bool, p: Prim, s: seq<byte>): Parsed {
    match p
    case VarInt => ReadVarInt(mode, s)
    case VarLong => ReadVarLong(mode, s)
    case Text => ReadString(mode, s)
    case Uuid => ReadBlock(UUID_BYTES, s)
    case Nbt => ReadNbt(s)
    case Position => if known then ReadBlock(POSITION_BYTES, s) else NoParse
    case Void => NoParse
    case _ => ReadFixed(mode, p, s)
  }

  function WireOf(mode: Mode, known: bool, slot: (seq<byte>, nat) -> Parsed): Wire {
    Wire((p, s) => ReadPrim(mode, known, p, s), slot)
  }

  lemma OneByteVarInt(mode: Mode, s: seq<byte>)
    requires s != [] && s[0] < 128
    ensures ReadVarInt(mode, s) == Parsed(Whole(VarInt, s[0]), 1)
  {
    assert s[..1][1..] == [] && V.Digits(s[..1]) == s[0];
    assert V.ExtentUnder(s, 5, 0x0f) == V.Ends(1);
    assert V.Encode(s[0]) == [s[0]];
  }

  lemma OneByteBool(mode: Mode, s: seq<byte>)
    requires s != [] && s[0] <= 1
    ensures ReadFixed(mode, Bool, s) == Parsed(Whole(Bool, s[0]), 1)
  {
    assert s[..1][..0] == [] && Big(s[..1]) == s[0];
  }

  // The contract.

  lemma FixedIsTyped(mode: Mode, p: Prim, s: seq<byte>)
    requires Width(p) > 0 && ReadFixed(mode, p, s).Parsed?
    ensures HasType(ReadFixed(mode, p, s).value, p)
  {
    BigIsBelow(s[..Width(p)]);
    Limits();
  }

  lemma VarLongIsTyped(mode: Mode, s: seq<byte>)
    ensures ReadVarLong(mode, s).Parsed? ==> HasType(ReadVarLong(mode, s).value, VarLong)
  {
    var d := V.DecodeUnder(s, 10, 1);
    if d.Decoded? {
      V.DigitsUnder(s, 10, 1);
      ScaleOfNine();
      Limits();
    }
  }

  lemma ScaleOfNine()
    ensures V.Scale(9) == 0x8000_0000_0000_0000
  {
    V.ScaleValues();
    assert V.Scale(6) == 128 * V.Scale(5);
    assert V.Scale(7) == 128 * V.Scale(6);
    assert V.Scale(8) == 128 * V.Scale(7);
    assert V.Scale(9) == 128 * V.Scale(8);
  }

  lemma PrimIsTyped(mode: Mode, known: bool, p: Prim, s: seq<byte>)
    requires ReadPrim(mode, known, p, s).Parsed?
    ensures HasType(ReadPrim(mode, known, p, s).value, p)
  {
    match p
    case VarInt => assert ReadVarInt(mode, s).Parsed?;
    case VarLong => VarLongIsTyped(mode, s);
    case Text | Uuid | Nbt | Position =>
    case _ => FixedIsTyped(mode, p, s);
  }

  lemma FixedIsDecided(mode: Mode, p: Prim, s: seq<byte>, t: seq<byte>)
    ensures Decided(ReadFixed(mode, p, s), s, ReadFixed(mode, p, t), t)
  {
    if |s| >= Width(p) && s[..Width(p)] <= t { assert t[..Width(p)] == s[..Width(p)]; }
  }

  lemma VarIntIsDecided(mode: Mode, s: seq<byte>, t: seq<byte>)
    ensures Decided(ReadVarInt(mode, s), s, ReadVarInt(mode, t), t)
  {
    P.VarIntIsLocal(s, t);
  }

  lemma VarLongIsDecided(mode: Mode, s: seq<byte>, t: seq<byte>)
    ensures Decided(ReadVarLong(mode, s), s, ReadVarLong(mode, t), t)
  {
    var d := V.DecodeUnder(s, 10, 1);
    if d.Decoded? && s[..d.size] <= t { V.UnderIsLocal(s, t, 10, 1); }
  }

  lemma StringIsDecided(mode: Mode, s: seq<byte>, t: seq<byte>)
    ensures Decided(ReadString(mode, s), s, ReadString(mode, t), t)
  {
    var n, r := ReadVarInt(mode, s), ReadString(mode, s);
    if r.Parsed? && s[..r.size] <= t {
      assert s[..n.size] == s[..r.size][..n.size];
      VarIntIsDecided(mode, s, t);
    }
  }

  lemma NbtIsDecided(s: seq<byte>, t: seq<byte>)
    ensures Decided(ReadNbt(s), s, ReadNbt(t), t)
  {
    var r := ReadNbt(s);
    if r.Parsed? && s[..r.size] <= t {
      assert s[..r.size] == t[..r.size];
      Nbt.NbtStays(false, s, t);
    }
  }

  lemma PrimIsDecided(mode: Mode, known: bool, p: Prim, s: seq<byte>, t: seq<byte>)
    ensures Decided(ReadPrim(mode, known, p, s), s, ReadPrim(mode, known, p, t), t)
  {
    match p
    case VarInt => VarIntIsDecided(mode, s, t);
    case VarLong => VarLongIsDecided(mode, s, t);
    case Text => StringIsDecided(mode, s, t);
    case Nbt => NbtIsDecided(s, t);
    case Uuid | Position | Void =>
    case _ => FixedIsDecided(mode, p, s, t);
  }

  /** In both modes every primitive has its C type, whatever the nested item parser does. */
  lemma RuntimeIsTyped(mode: Mode, known: bool, slot: (seq<byte>, nat) -> Parsed)
    ensures WellTyped(WireOf(mode, known, slot))
  {
    var w := WireOf(mode, known, slot);
    forall p, s: seq<byte> | w.read(p, s).Parsed? ensures HasType(w.read(p, s).value, p) {
      assert w.read(p, s) == ReadPrim(mode, known, p, s);
      PrimIsTyped(mode, known, p, s);
    }
  }

  ghost predicate SlotDelimits(slot: (seq<byte>, nat) -> Parsed) {
    forall depth: nat, s: seq<byte>, t: seq<byte> :: Decided(slot(s, depth), s, slot(t, depth), t)
  }

  /** In both modes every primitive delimits itself. */
  lemma RuntimeDelimitsItself(mode: Mode, known: bool, slot: (seq<byte>, nat) -> Parsed)
    requires SlotDelimits(slot)
    ensures SelfDelimiting(WireOf(mode, known, slot))
  {
    var w := WireOf(mode, known, slot);
    forall p, s: seq<byte>, t: seq<byte> ensures Decided(w.read(p, s), s, w.read(p, t), t) {
      PrimIsDecided(mode, known, p, s, t);
    }
    forall depth: nat, s: seq<byte>, t: seq<byte> ensures Decided(w.slot(s, depth), s, w.slot(t, depth), t) {
      assert Decided(slot(s, depth), s, slot(t, depth), t);
    }
  }
}
