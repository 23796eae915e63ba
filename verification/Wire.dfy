/** The wire primitives that generated component validators read.
  *
  * What the validators need of the mc_reader_* functions is stated here as a contract: a successful read depends only
  * on the bytes it consumes, and yields a value of the primitive's own C type. The readers of `Runtime` keep it in
  * both decode modes, with the NBT parser of `Nbt` and the nested item parser of `NestedItems`.
  */
module Wire {
  import opened Bytes

  datatype Prim =
    | Bool | I8 | U8 | I16 | U16 | I32 | U32 | I64 | U64
    | F32 | F64 | VarInt | VarLong
    | Text | Uuid | Nbt | Position | Void

  /** What a C variable of a primitive's type holds. Of a finite float, what comparisons with integers can observe:
    * its integer part, whether it is below zero, and whether it has no fraction. Text and positions are stored but
    * never inspected. */
  datatype Value =
    | Whole(prim: Prim, number: int)
    | Finite(integerPart: int, belowZero: bool, integral: bool)
    | NotFinite
    | Uninspected

  datatype Parsed = NoParse | Parsed(value: Value, size: nat)

  /** `read` is one mc_reader_* call on the remaining bytes; `slot` is the nested item parser, which is also told
    * its depth. */
  datatype Wire = Wire(read: (Prim, seq<byte>) -> Parsed, slot: (seq<byte>, nat) -> Parsed)

  predicate IsFloat(p: Prim) {
    p == F32 || p == F64
  }

  predicate IsInteger(p: Prim) {
    match p
    case I8 | U8 | I16 | U16 | I32 | U32 | I64 | U64 | VarInt | VarLong => true
    case _ => false
  }

  /** The range of the C type a whole-number primitive is read into. */
  predicate InRange(p: Prim, i: int) {
    match p
    case Bool => 0 <= i <= 1
    case I8 => -0x80 <= i < 0x80
    case U8 => 0 <= i < 0x100
    case I16 => -0x8000 <= i < 0x8000
    case U16 => 0 <= i < 0x1_0000
    case U32 => 0 <= i < 0x1_0000_0000
    case U64 => 0 <= i < 0x1_0000_0000_0000_0000
    case I64 | VarLong => -0x8000_0000_0000_0000 <= i < 0x8000_0000_0000_0000
    case _ => -0x8000_0000 <= i < 0x8000_0000
  }

  predicate HasType(v: Value, p: Prim) {
    if p == Bool || IsInteger(p) then v.Whole? && v.prim == p && InRange(p, v.number)
    else if IsFloat(p) then v.Finite? || v.NotFinite?
    else true
  }

  ghost predicate WellTyped(w: Wire) {
    forall p, s: seq<byte> :: w.read(p, s).Parsed? ==> HasType(w.read(p, s).value, p)
  }

  /** A parse of `s` is also the parse of every input that starts with the bytes it consumed. */
  ghost predicate Decided(r: Parsed, s: seq<byte>, r': Parsed, t: seq<byte>) {
    r.Parsed? && r.size <= |s| && s[..r.size] <= t ==> r' == r
  }

  ghost predicate SelfDelimiting(w: Wire) {
    && (forall p, s: seq<byte>, t: seq<byte> :: Decided(w.read(p, s), s, w.read(p, t), t))
    && (forall depth: nat, s: seq<byte>, t: seq<byte> :: Decided(w.slot(s, depth), s, w.slot(t, depth), t))
  }

  // C comparisons on a variable of a primitive's type.

  predicate IsNegative(v: Value) {
    (v.Whole? && v.number < 0) || (v.Finite? && (v.belowZero || v.integerPart < 0))
  }

  /** The integer a conversion to an unsigned C type keeps of a non-negative value. */
  function Truncated(v: Value): int {
    if v.Whole? then v.number else if v.Finite? then v.integerPart else 0
  }

  /** `variable == literal`. The usual arithmetic conversions turn a negative literal into an unsigned number when
    * the variable is at least as wide as the literal's own type. */
  predicate EqualsLiteral(v: Value, literal: int) {
    match v
    case Whole(U32, i) => i == literal || (-0x8000_0000 < literal < 0 && i == literal + 0x1_0000_0000)
    case Whole(U64, i) =>
      i == literal || (-0x8000_0000_0000_0000 < literal < 0 && i == literal + 0x1_0000_0000_0000_0000)
    case Whole(_, i) => i == literal
    case Finite(part, _, integral) => integral && part == literal
    case _ => false
  }

  /** One read at an offset, on the bytes the reader still holds. */
  function ReadAt(w: Wire, p: Prim, data: seq<byte>, at: nat): (r: Parsed)
    requires at <= |data|
    ensures r.Parsed? ==> at + r.size <= |data|
  {
    var r := w.read(p, data[at..]);
    if r.Parsed? && at + r.size <= |data| then r else NoParse
  }

  function SlotAt(w: Wire, data: seq<byte>, at: nat, depth: nat): (r: Parsed)
    requires at <= |data|
    ensures r.Parsed? ==> at + r.size <= |data|
  {
    var r := w.slot(data[at..], depth);
    if r.Parsed? && at + r.size <= |data| then r else NoParse
  }

  /** `n` bytes of `d` from `o` and of `e` from `q` are the same. */
  ghost predicate SameBytes(d: seq<byte>, o: nat, e: seq<byte>, q: nat, n: nat) {
    o + n <= |d| && q + n <= |e| && forall i :: o <= i < o + n ==> d[i] == e[i - o + q]
  }

  lemma ReadIsLocal(w: Wire, p: Prim, d: seq<byte>, o: nat, e: seq<byte>, q: nat)
    requires SelfDelimiting(w) && o <= |d| && q <= |e|
    requires ReadAt(w, p, d, o).Parsed?
    requires SameBytes(d, o, e, q, ReadAt(w, p, d, o).size)
    ensures ReadAt(w, p, e, q) == ReadAt(w, p, d, o)
  {
    SamePrefix(d, o, e, q, w.read(p, d[o..]).size);
    assert Decided(w.read(p, d[o..]), d[o..], w.read(p, e[q..]), e[q..]);
  }

  lemma SlotIsLocal(w: Wire, d: seq<byte>, o: nat, e: seq<byte>, q: nat, depth: nat)
    requires SelfDelimiting(w) && o <= |d| && q <= |e|
    requires SlotAt(w, d, o, depth).Parsed?
    requires SameBytes(d, o, e, q, SlotAt(w, d, o, depth).size)
    ensures SlotAt(w, e, q, depth) == SlotAt(w, d, o, depth)
  {
    SamePrefix(d, o, e, q, w.slot(d[o..], depth).size);
    assert Decided(w.slot(d[o..], depth), d[o..], w.slot(e[q..], depth), e[q..]);
  }

  lemma SamePrefix(d: seq<byte>, o: nat, e: seq<byte>, q: nat, n: nat)
    requires SameBytes(d, o, e, q, n)
    ensures d[o..][..n] <= e[q..]
  {
    var s, t := d[o..][..n], e[q..];
    forall k | 0 <= k < n ensures s[k] == t[k] {
      assert d[o + k] == e[o + k - o + q];
    }
  }
}
