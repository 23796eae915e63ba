/** The writers and readers of api.c that packet codecs call, and what comes back of packets that are written and read
  * with them, in both decode modes. */
module PacketRuntime {
  import opened Bytes
  import opened Wrappers
  import opened Wire
  import opened S = SchemaResolution
  import opened C = PacketCodec
  import R = Runtime
  import P = Primitives
  import V = VarInt
  import N = Nbt

  /** The value of a scalar member. Of a float, its bit pattern. */
  datatype Datum = Number(number: int) | Block(bytes: seq<byte>) | Point(x: int, y: int, z: int)

  const INT32_MAX: nat := 0x7fff_ffff

  /** `supported` is whether the runtime knows the protocol at all, `modern` whether its number is 477 or above. */
  datatype Protocol = Protocol(supported: bool, modern: bool)

  // Big-endian numbers.

  function BigBytes(n: nat, width: nat): (s: seq<byte>)
    ensures |s| == width
  {
    if width == 0 then [] else
      var last: int := n % 0x100;
      BigBytes(n / 0x100, width - 1) + [last]
  }

  lemma BigOf(front: seq<byte>, b: byte)
    ensures R.Big(front + [b]) == 0x100 * R.Big(front) + b
  {
    var s := front + [b];
    assert s[..|s| - 1] == front;
  }

  lemma {:induction false} BigBack(n: nat, width: nat)
    requires n < R.Limit(width)
    ensures R.Big(BigBytes(n, width)) == n
  {
    if width > 0 {
      BigBack(n / 0x100, width - 1);
      BigOf(BigBytes(n / 0x100, width - 1), n % 0x100);
    }
  }

  lemma {:induction false} BytesBack(s: seq<byte>)
    ensures BigBytes(R.Big(s), |s|) == s
  {
    if s != [] {
      var front, b: int := s[..|s| - 1], s[|s| - 1];
      BytesBack(front);
      assert s == front + [b];
      BigOf(front, b);
      assert R.Big(s) / 0x100 == R.Big(front) && R.Big(s) % 0x100 == b;
    }
  }

  /** The pattern of a number in two's complement, below `limit`. */
  function Pattern(v: int, limit: nat): int {
    if v < 0 then v + limit else v
  }

  /** What a C variable of the type of a fixed-width primitive can hold. */
  predicate Fits(p: Prim, v: int) {
    if IsFloat(p) then 0 <= v < R.Limit(R.Width(p)) else InRange(p, v)
  }

  lemma PatternFits(p: Prim, v: int)
    requires R.Width(p) > 0 && Fits(p, v)
    ensures 0 <= Pattern(v, R.Limit(R.Width(p))) < R.Limit(R.Width(p))
    ensures p == Bool ==> Pattern(v, R.Limit(R.Width(p))) <= 1
    ensures !IsFloat(p) ==> R.ValueOf(p, Pattern(v, R.Limit(R.Width(p)))) == Whole(p, v)
    ensures IsFloat(p) ==> Pattern(v, R.Limit(R.Width(p))) == v
  {
    R.Limits();
  }

  // The writers.

  /** mc_packet_bool to mc_packet_double. */
  function PutFixed(p: Prim, v: Datum): Option<seq<byte>>
    requires R.Width(p) > 0
  {
    if v.Number? && Fits(p, v.number) then
      PatternFits(p, v.number);
      Some(BigBytes(Pattern(v.number, R.Limit(R.Width(p))), R.Width(p)))
    else None
  }

  function PutVarInt(v: Datum): Option<seq<byte>> {
    if v.Number? && IsInt32(v.number) then Some(P.VarIntBytes(v.number)) else None
  }

  function PutVarLong(v: Datum): Option<seq<byte>> {
    if v.Number? && InRange(VarLong, v.number) then Some(V.Encode(Pattern(v.number, 0x1_0000_0000_0000_0000)))
    else None
  }

  function CountBytes(wide: bool, n: nat): seq<byte>
    requires n <= INT32_MAX
  {
    if wide then BigBytes(n, 4) else P.VarIntBytes(n)
  }

  /** mc_packet_buffer_i32, mc_packet_buffer_varint and mc_packet_string_n. */
  function PutCounted(wide: bool, v: Datum): Option<seq<byte>> {
    if v.Block? && |v.bytes| <= INT32_MAX then Some(CountBytes(wide, |v.bytes|) + v.bytes) else None
  }

  function PutUuid(v: Datum): Option<seq<byte>> {
    if v.Block? && |v.bytes| == R.UUID_BYTES then Some(v.bytes) else None
  }

  /** mc_packet_nbt: only one whole value is written. */
  function PutNbt(v: Datum): Option<seq<byte>> {
    if v.Block? && N.Extent(false, v.bytes) == Some(|v.bytes|) then Some(v.bytes) else None
  }

  const WIDE: nat := 0x400_0000
  const NARROW: nat := 0x1000

  predicate InWorld(v: Datum) {
    v.Point? && -0x200_0000 <= v.x < 0x200_0000 && -0x800 <= v.y < 0x800 && -0x200_0000 <= v.z < 0x200_0000
  }

  function Packed(modern: bool, v: Datum): nat
    requires InWorld(v)
  {
    var x, y, z := Pattern(v.x, WIDE), Pattern(v.y, NARROW), Pattern(v.z, WIDE);
    if modern then x * 0x40_0000_0000 + z * NARROW + y else x * 0x40_0000_0000 + y * WIDE + z
  }

  /** mc_packet_position. */
  function PutPlace(protocol: Protocol, v: Datum): Option<seq<byte>> {
    if protocol.supported && InWorld(v) then Some(BigBytes(Packed(protocol.modern, v), R.POSITION_BYTES)) else None
  }

  function Put(protocol: Protocol, f: Format, v: Datum): Option<seq<byte>> {
    match f
    case Place => PutPlace(protocol, v)
    case Counted(wide) => PutCounted(wide, v)
    case Scalar(VarInt) => PutVarInt(v)
    case Scalar(VarLong) => PutVarLong(v)
    case Scalar(Text) => PutCounted(false, v)
    case Scalar(Uuid) => PutUuid(v)
    case Scalar(Nbt) => PutNbt(v)
    case Scalar(p) => if R.Width(p) > 0 then PutFixed(p, v) else None
  }

  // The readers.

  function GetFixed(mode: R.Mode, p: Prim, s: seq<byte>): Option<(Datum, nat)>
    requires R.Width(p) > 0
  {
    if |s| < R.Width(p) then None
    else if IsFloat(p) then Some((Number(R.Big(s[..R.Width(p)])), R.Width(p)))
    else
      var r := R.ReadFixed(mode, p, s);
      if r.NoParse? then None else Some((Number(r.value.number), r.size))
  }

  function GetVarInt(mode: R.Mode, s: seq<byte>): Option<(Datum, nat)> {
    var r := R.ReadVarInt(mode, s);
    if r.NoParse? then None else Some((Number(r.value.number), r.size))
  }

  function GetVarLong(mode: R.Mode, s: seq<byte>): Option<(Datum, nat)> {
    var r := R.ReadVarLong(mode, s);
    if r.NoParse? then None else Some((Number(r.value.number), r.size))
  }

  function GetCount(mode: R.Mode, wide: bool, s: seq<byte>): Option<(Datum, nat)> {
    if wide then GetFixed(mode, I32, s) else GetVarInt(mode, s)
  }

  /** A count of at most `limit`, and that many bytes. */
  function GetCounted(mode: R.Mode, wide: bool, limit: nat, s: seq<byte>): Option<(Datum, nat)> {
    var n := GetCount(mode, wide, s);
    if n.None? || !(0 <= n.value.0.number <= limit) || n.value.1 + n.value.0.number > |s| then None
    else
      var size := n.value.1 + n.value.0.number;
      Some((Block(s[n.value.1..size]), size))
  }

  /** A primitive that is kept as the bytes it takes. */
  function GetBlock(r: Parsed, s: seq<byte>): Option<(Datum, nat)> {
    if r.NoParse? || r.size > |s| then None else Some((Block(s[..r.size]), r.size))
  }

  function Unpacked(modern: bool, n: nat): Datum {
    var x, wide := R.Signed(n / 0x40_0000_0000 % WIDE, WIDE), if modern then n / NARROW % WIDE else n % WIDE;
    var narrow := if modern then n % NARROW else n / WIDE % NARROW;
    Point(x, R.Signed(narrow, NARROW), R.Signed(wide, WIDE))
  }

  /** mc_reader_position. */
  function GetPlace(mode: R.Mode, protocol: Protocol, s: seq<byte>): Option<(Datum, nat)> {
    var r := R.ReadPrim(mode, protocol.supported, Position, s);
    if r.NoParse? then None else Some((Unpacked(protocol.modern, R.Big(s[..r.size])), r.size))
  }

  function Get(mode: R.Mode, protocol: Protocol, f: Format, s: seq<byte>): Option<(Datum, nat)> {
    match f
    case Place => GetPlace(mode, protocol, s)
    case Counted(wide) => GetCounted(mode, wide, INT32_MAX, s)
    case Scalar(VarInt) => GetVarInt(mode, s)
    case Scalar(VarLong) => GetVarLong(mode, s)
    case Scalar(Text) => GetCounted(mode, false, R.MAX_STRING_BYTES, s)
    case Scalar(Uuid) => GetBlock(R.ReadBlock(R.UUID_BYTES, s), s)
    case Scalar(Nbt) => GetBlock(R.ReadNbt(s), s)
    case Scalar(p) => if R.Width(p) > 0 then GetFixed(mode, p, s) else None
  }

  function RuntimeOf(mode: R.Mode, protocol: Protocol): Scalars<Datum> {
    Scalars((f, v) => Put(protocol, f, v), (f, s) => Get(mode, protocol, f, s))
  }

  /** Component validators and packet decoders accept the same bytes for a primitive, and go on from the same place. */
  lemma ReadersAgree(mode: R.Mode, protocol: Protocol, p: Prim, s: seq<byte>)
    requires p != Position
    ensures var r, g := R.ReadPrim(mode, protocol.supported, p, s), Get(mode, protocol, Scalar(p), s);
            (g.Some? <==> r.Parsed?) && (g.Some? ==> g.value.1 == r.size)
  {
  }

  // What is written reads back.

  lemma GetOfBytes(mode: R.Mode, p: Prim, n: nat, s: seq<byte>, rest: seq<byte>)
    requires R.Width(p) > 0 && n < R.Limit(R.Width(p)) && s == BigBytes(n, R.Width(p)) && (p == Bool ==> n <= 1)
    ensures GetFixed(mode, p, s + rest)
         == Some((Number(if IsFloat(p) then n else R.ValueOf(p, n).number), R.Width(p)))
  {
    BigBack(n, R.Width(p));
    assert (s + rest)[..R.Width(p)] == s;
  }

  lemma FixedBack(mode: R.Mode, p: Prim, v: Datum, s: seq<byte>, rest: seq<byte>)
    requires R.Width(p) > 0 && PutFixed(p, v) == Some(s)
    ensures GetFixed(mode, p, s + rest) == Some((v, R.Width(p)))
  {
    PatternFits(p, v.number);
    GetOfBytes(mode, p, Pattern(v.number, R.Limit(R.Width(p))), s, rest);
  }

  lemma VarIntBack(mode: R.Mode, v: Datum, rest: seq<byte>)
    requires PutVarInt(v).Some?
    ensures GetVarInt(mode, PutVarInt(v).value + rest) == Some((v, |PutVarInt(v).value|))
  {
    P.VarIntComesBack(v.number, rest);
  }

  lemma VarLongBack(mode: R.Mode, v: Datum, rest: seq<byte>)
    requires PutVarLong(v).Some?
    ensures GetVarLong(mode, PutVarLong(v).value + rest) == Some((v, |PutVarLong(v).value|))
  {
    R.ScaleOfNine();
    R.Limits();
    V.UnderInvertsEncode(Pattern(v.number, 0x1_0000_0000_0000_0000), rest, 10, 1);
  }

  lemma CountBack(mode: R.Mode, wide: bool, n: nat, rest: seq<byte>)
    requires n <= INT32_MAX
    ensures GetCount(mode, wide, CountBytes(wide, n) + rest) == Some((Number(n), |CountBytes(wide, n)|))
  {
    if wide { FixedBack(mode, I32, Number(n), CountBytes(wide, n), rest); } else { VarIntBack(mode, Number(n), rest); }
  }

  lemma CountedBack(mode: R.Mode, wide: bool, limit: nat, v: Datum, rest: seq<byte>)
    requires PutCounted(wide, v).Some?
    ensures var s := PutCounted(wide, v).value;
            GetCounted(mode, wide, limit, s + rest) == if |v.bytes| <= limit then Some((v, |s|)) else None
  {
    var count := CountBytes(wide, |v.bytes|);
    CountBack(mode, wide, |v.bytes|, v.bytes + rest);
    assert count + v.bytes + rest == count + (v.bytes + rest);
    assert (count + (v.bytes + rest))[|count|..|count| + |v.bytes|] == v.bytes;
  }

  lemma NbtBack(mode: R.Mode, v: Datum, rest: seq<byte>)
    requires PutNbt(v).Some?
    ensures GetBlock(R.ReadNbt(v.bytes + rest), v.bytes + rest) == Some((v, |v.bytes|))
  {
    assert v.bytes[..|v.bytes|] == v.bytes;
    R.NbtIsDecided(v.bytes, v.bytes + rest);
    assert Decided(R.ReadNbt(v.bytes), v.bytes, R.ReadNbt(v.bytes + rest), v.bytes + rest);
  }

  /** Three numbers that were put side by side can be taken apart again. */
  lemma ModernApart(x: nat, y: nat, z: nat)
    requires x < WIDE && y < NARROW && z < WIDE
    ensures var n := x * 0x40_0000_0000 + z * NARROW + y;
            && n < 0x1_0000_0000_0000_0000 && n / 0x40_0000_0000 % WIDE == x
            && n / NARROW % WIDE == z && n % NARROW == y
  {
    var n := x * 0x40_0000_0000 + z * NARROW + y;
    assert n / NARROW == x * WIDE + z;
    assert n / 0x40_0000_0000 == x;
  }

  lemma OlderApart(x: nat, y: nat, z: nat)
    requires x < WIDE && y < NARROW && z < WIDE
    ensures var n := x * 0x40_0000_0000 + y * WIDE + z;
            && n < 0x1_0000_0000_0000_0000 && n / 0x40_0000_0000 % WIDE == x
            && n / WIDE % NARROW == y && n % WIDE == z
  {
    var n := x * 0x40_0000_0000 + y * WIDE + z;
    assert n / WIDE == x * NARROW + y;
    assert n / 0x40_0000_0000 == x;
  }

  lemma PackedBack(modern: bool, v: Datum)
    requires InWorld(v)
    ensures Packed(modern, v) < 0x1_0000_0000_0000_0000 && Unpacked(modern, Packed(modern, v)) == v
  {
    var x, y, z := Pattern(v.x, WIDE), Pattern(v.y, NARROW), Pattern(v.z, WIDE);
    if modern { ModernApart(x, y, z); } else { OlderApart(x, y, z); }
    assert R.Signed(x, WIDE) == v.x && R.Signed(y, NARROW) == v.y && R.Signed(z, WIDE) == v.z;
  }

  lemma PlaceBack(mode: R.Mode, protocol: Protocol, v: Datum, rest: seq<byte>)
    requires PutPlace(protocol, v).Some?
    ensures GetPlace(mode, protocol, PutPlace(protocol, v).value + rest) == Some((v, R.POSITION_BYTES))
  {
    var s := PutPlace(protocol, v).value;
    PackedBack(protocol.modern, v);
    R.Limits();
    BigBack(Packed(protocol.modern, v), R.POSITION_BYTES);
    assert (s + rest)[..R.POSITION_BYTES] == s;
  }

  /** A string that the writer accepts and the reader refuses. */
  predicate TooLong(f: Format, v: Datum) {
    f == Scalar(Text) && v.Block? && |v.bytes| > R.MAX_STRING_BYTES
  }

  /** What was written reads back, whatever follows, but for a string that is too long, which is refused. */
  lemma ScalarBack(mode: R.Mode, protocol: Protocol, f: Format, v: Datum, rest: seq<byte>)
    requires Put(protocol, f, v).Some?
    ensures var s := Put(protocol, f, v).value;
            Get(mode, protocol, f, s + rest) == if TooLong(f, v) then None else Some((v, |s|))
  {
    var s := Put(protocol, f, v).value;
    match f
    case Place => PlaceBack(mode, protocol, v, rest);
    case Counted(wide) => CountedBack(mode, wide, INT32_MAX, v, rest);
    case Scalar(VarInt) => VarIntBack(mode, v, rest);
    case Scalar(VarLong) => VarLongBack(mode, v, rest);
    case Scalar(Text) => CountedBack(mode, false, R.MAX_STRING_BYTES, v, rest);
    case Scalar(Uuid) => assert (v.bytes + rest)[..R.UUID_BYTES] == v.bytes;
    case Scalar(Nbt) => NbtBack(mode, v, rest);
    case Scalar(p) => FixedBack(mode, p, v, s, rest);
  }

  lemma EachBack(mode: R.Mode, protocol: Protocol, f: Format, v: Datum)
    ensures !TooLong(f, v) ==> ReadsBack(RuntimeOf(mode, protocol), f, v)
    ensures TooLong(f, v) ==> NeverReads(RuntimeOf(mode, protocol), f, v)
  {
    var w := RuntimeOf(mode, protocol);
    if w.put(f, v).Some? {
      forall rest: seq<byte>
        ensures w.get(f, w.put(f, v).value + rest) == if TooLong(f, v) then None else Some((v, |w.put(f, v).value|))
      {
        ScalarBack(mode, protocol, f, v, rest);
      }
    }
  }

  // What is read can be written.

  lemma ValueFits(p: Prim, n: nat)
    requires R.Width(p) > 0 && !IsFloat(p) && n < R.Limit(R.Width(p))
    ensures var v := R.ValueOf(p, n);
            v.Whole? && Fits(p, v.number) && (p != Bool || n <= 1 ==> Pattern(v.number, R.Limit(R.Width(p))) == n)
  {
    R.Limits();
  }

  lemma PutOf(p: Prim, v: int, s: seq<byte>)
    requires R.Width(p) > 0 && |s| == R.Width(p) && Fits(p, v) && Pattern(v, R.Limit(R.Width(p))) == R.Big(s)
    ensures PutFixed(p, Number(v)) == Some(s)
  {
    BytesBack(s);
  }

  lemma FixedKept(mode: R.Mode, p: Prim, s: seq<byte>)
    requires R.Width(p) > 0 && GetFixed(mode, p, s).Some?
    ensures GetFixed(mode, p, s).value.1 == R.Width(p) <= |s|
    ensures var v := GetFixed(mode, p, s).value.0;
            PutFixed(p, v).Some?
            && (mode.Strict? || p != Bool ==> PutFixed(p, v) == Some(s[..R.Width(p)]))
  {
    var front := s[..R.Width(p)];
    var v := GetFixed(mode, p, s).value.0.number;
    R.BigIsBelow(front);
    if IsFloat(p) {
      PutOf(p, v, front);
    } else {
      ValueFits(p, R.Big(front));
      if mode.Strict? || p != Bool { PutOf(p, v, front); }
    }
  }

  lemma VarIntKept(mode: R.Mode, s: seq<byte>)
    requires GetVarInt(mode, s).Some?
    ensures var r := GetVarInt(mode, s).value;
            r.1 <= |s| && PutVarInt(r.0).Some? && (mode.Strict? ==> PutVarInt(r.0) == Some(s[..r.1]))
  {
    P.WordHolds(s);
    var d := V.DecodeUnder(s, V.MAX_BYTES, 0x0f);
    if mode.Strict? { ShortIsEncoded(s, V.MAX_BYTES, 0x0f); }
    assert ToUnsigned(ToSigned(d.value)) == d.value;
  }

  lemma VarLongKept(mode: R.Mode, s: seq<byte>)
    requires GetVarLong(mode, s).Some?
    ensures var r := GetVarLong(mode, s).value;
            r.1 <= |s| && PutVarLong(r.0).Some? && (mode.Strict? ==> PutVarLong(r.0) == Some(s[..r.1]))
  {
    R.VarLongIsTyped(mode, s);
    V.DigitsUnder(s, 10, 1);
    R.ScaleOfNine();
    R.Limits();
    if mode.Strict? { ShortIsEncoded(s, 10, 1); }
  }

  /** An encoding as long as the shortest is the shortest. */
  lemma ShortIsEncoded(s: seq<byte>, limit: nat, top: nat)
    requires top < 128 && V.DecodeUnder(s, limit, top).Decoded?
    requires var d := V.DecodeUnder(s, limit, top); |V.Encode(d.value)| == d.size
    ensures var d := V.DecodeUnder(s, limit, top); V.Encode(d.value) == s[..d.size]
  {
    var d := V.DecodeUnder(s, limit, top);
    var used := s[..d.size];
    V.UnderIsLocal(s, used, limit, top);
    V.UnderIs(used, limit, top);
    V.EncodeOfDigits(used, limit);
    if |used| > 1 && used[|used| - 1] == 0 {
      var front := used[..|used| - 1];
      assert used == front + [0];
      V.DigitsAppend(front, 0);
      V.EncodeLength(V.Digits(used), |used| - 1);
    }
  }

  lemma CountKept(mode: R.Mode, wide: bool, s: seq<byte>)
    requires GetCount(mode, wide, s).Some? && 0 <= GetCount(mode, wide, s).value.0.number
    ensures var n := GetCount(mode, wide, s).value;
            n.1 <= |s| && n.0.number <= INT32_MAX
            && (mode.Strict? || wide ==> CountBytes(wide, n.0.number) == s[..n.1])
  {
    if wide { FixedKept(mode, I32, s); R.FixedIsTyped(mode, I32, s); } else { VarIntKept(mode, s); }
  }

  lemma CountedKept(mode: R.Mode, wide: bool, limit: nat, s: seq<byte>)
    requires GetCounted(mode, wide, limit, s).Some?
    ensures var r := GetCounted(mode, wide, limit, s).value;
            r.1 <= |s| && r.0.Block? && |r.0.bytes| <= limit && PutCounted(wide, r.0).Some?
            && (mode.Strict? ==> PutCounted(wide, r.0) == Some(s[..r.1]))
  {
    CountKept(mode, wide, s);
    var n, r := GetCount(mode, wide, s).value, GetCounted(mode, wide, limit, s).value;
    assert s[..r.1] == s[..n.1] + s[n.1..r.1];
  }

  lemma NbtKept(s: seq<byte>)
    requires R.ReadNbt(s).Parsed?
    ensures var n := R.ReadNbt(s).size; n <= |s| && PutNbt(Block(s[..n])) == Some(s[..n])
  {
    var n := R.ReadNbt(s).size;
    R.NbtIsDecided(s, s[..n]);
    assert Decided(R.ReadNbt(s), s, R.ReadNbt(s[..n]), s[..n]);
  }

  lemma SignedBack(n: nat, limit: nat)
    requires n < limit
    ensures Pattern(R.Signed(n, limit), limit) == n
    ensures 2 * -R.Signed(n, limit) <= limit && 2 * R.Signed(n, limit) < limit
  {}

  /** The other way round. */
  lemma ModernTogether(n: nat)
    ensures n == n / 0x40_0000_0000 * 0x40_0000_0000 + n / NARROW % WIDE * NARROW + n % NARROW
  {
    assert n / NARROW / WIDE == n / 0x40_0000_0000;
  }

  lemma OlderTogether(n: nat)
    ensures n == n / 0x40_0000_0000 * 0x40_0000_0000 + n / WIDE % NARROW * WIDE + n % WIDE
  {
    assert n / WIDE / NARROW == n / 0x40_0000_0000;
  }

  lemma UnpackedBack(modern: bool, n: nat)
    requires n < 0x1_0000_0000_0000_0000
    ensures InWorld(Unpacked(modern, n)) && Packed(modern, Unpacked(modern, n)) == n
  {
    SignedBack(n / 0x40_0000_0000 % WIDE, WIDE);
    assert n / 0x40_0000_0000 < WIDE;
    if modern {
      SignedBack(n / NARROW % WIDE, WIDE);
      SignedBack(n % NARROW, NARROW);
      ModernTogether(n);
    } else {
      SignedBack(n % WIDE, WIDE);
      SignedBack(n / WIDE % NARROW, NARROW);
      OlderTogether(n);
    }
  }

  lemma PlaceKept(mode: R.Mode, protocol: Protocol, s: seq<byte>)
    requires GetPlace(mode, protocol, s).Some?
    ensures var r := GetPlace(mode, protocol, s).value; r.1 <= |s| && PutPlace(protocol, r.0) == Some(s[..r.1])
  {
    var front := s[..R.POSITION_BYTES];
    R.BigIsBelow(front);
    R.Limits();
    UnpackedBack(protocol.modern, R.Big(front));
    BytesBack(front);
  }

  /** What was read can be written, is no string that is too long, and in strict mode is written as the bytes that it
    * was read from. */
  lemma ScalarKept(mode: R.Mode, protocol: Protocol, f: Format, s: seq<byte>)
    requires Get(mode, protocol, f, s).Some?
    ensures var r := Get(mode, protocol, f, s).value;
            r.1 <= |s| && Put(protocol, f, r.0).Some? && !TooLong(f, r.0)
            && (mode.Strict? ==> Put(protocol, f, r.0) == Some(s[..r.1]))
  {
    match f
    case Place => PlaceKept(mode, protocol, s);
    case Counted(wide) => CountedKept(mode, wide, INT32_MAX, s);
    case Scalar(VarInt) => VarIntKept(mode, s);
    case Scalar(VarLong) => VarLongKept(mode, s);
    case Scalar(Text) => CountedKept(mode, false, R.MAX_STRING_BYTES, s);
    case Scalar(Uuid) =>
    case Scalar(Nbt) => NbtKept(s);
    case Scalar(p) => FixedKept(mode, p, s);
  }

  lemma AllKept(mode: R.Mode, protocol: Protocol)
    ensures CanWriteWhatItReads(RuntimeOf(mode, protocol))
    ensures mode.Strict? ==> WritesWhatItRead(RuntimeOf(mode, protocol))
  {
    var w := RuntimeOf(mode, protocol);
    forall f, s: seq<byte> | w.get(f, s).Some?
      ensures IsWritable(w, f, w.get(f, s).value.0)
      ensures mode.Strict? ==> IsWrittenAs(w, f, w.get(f, s).value.0, s, w.get(f, s).value.1)
    {
      ScalarKept(mode, protocol, f, s);
      EachBack(mode, protocol, f, w.get(f, s).value.0);
    }
  }

  // Packets.

  /** Every string is at most as long as the reader takes. */
  predicate TextsFit(actions: seq<Action>, value: Store<Datum>) {
    forall k :: 0 <= k < |actions| && actions[k].path in value ==> !TooLong(actions[k].format, value[actions[k].path])
  }

  /** For every packet that compiles, in both decode modes: what was encoded decodes to the value it was encoded from if
    * no string is longer than 2^20 bytes, and is refused if one is. */
  lemma PacketsComeBackExactly(t: Types, fields: Fields, mode: R.Mode, protocol: Protocol, value: Store<Datum>)
    requires Declarations(t, fields, {}).Some? && IsValue(value, Declarations(t, fields, {}).value)
    ensures var w := RuntimeOf(mode, protocol);
            var puts, gets := Codecs(t, fields, [], true, {}), Codecs(t, fields, [], false, {});
            && puts.Some? && gets.Some?
            && (Write(w, puts.value, value).Some? ==>
                  Decode(w, gets.value, Write(w, puts.value, value).value)
                    == if TextsFit(puts.value, value) then Some(value) else None)
  {
    var w := RuntimeOf(mode, protocol);
    PacketsComeBack(t, fields, w, value);
    var puts := Codecs(t, fields, [], true, {}).value;
    if Write(w, puts, value).Some? {
      forall k | 0 <= k < |puts| && puts[k].path in value
        ensures !TooLong(puts[k].format, value[puts[k].path]) <==> ReadsBack(w, puts[k].format, value[puts[k].path])
        ensures TooLong(puts[k].format, value[puts[k].path]) ==> NeverReads(w, puts[k].format, value[puts[k].path])
      {
        EachBack(mode, protocol, puts[k].format, value[puts[k].path]);
        WrittenIsWritable(w, puts, value, k);
        NotBoth(w, puts[k].format, value[puts[k].path]);
      }
    }
  }

  lemma {:induction false} WrittenIsWritable(w: Scalars<Datum>, puts: seq<Action>, value: Store<Datum>, k: nat)
    requires Write(w, puts, value).Some? && k < |puts|
    ensures puts[k].path in value && w.put(puts[k].format, value[puts[k].path]).Some?
  {
    if k > 0 { WrittenIsWritable(w, puts[1..], value, k - 1); }
  }

  lemma NotBoth(w: Scalars<Datum>, f: Format, v: Datum)
    requires w.put(f, v).Some?
    ensures !(ReadsBack(w, f, v) && NeverReads(w, f, v))
  {
    var s := w.put(f, v).value;
    if ReadsBack(w, f, v) {
      assert ReadsOff(w, f, s + [], v, |s|);
    }
  }

  /** Where C accepts the struct, whatever decodes can be encoded again and comes back; in strict mode, as the very
    * bytes. */
  lemma DecodedComeBack(t: Types, fields: Fields, mode: R.Mode, protocol: Protocol, data: seq<byte>)
    requires Declarations(t, fields, {}).Some? && DistinctNames(Declarations(t, fields, {}).value)
    ensures var w := RuntimeOf(mode, protocol);
            var puts, gets := Codecs(t, fields, [], true, {}), Codecs(t, fields, [], false, {});
            && puts.Some? && gets.Some?
            && var value := Decode(w, gets.value, data);
            value.Some? ==> Write(w, puts.value, value.value).Some?
                            && Decode(w, gets.value, Write(w, puts.value, value.value).value) == value
                            && (mode.Strict? ==> Write(w, puts.value, value.value) == Some(data))
  {
    AllKept(mode, protocol);
    DecodedPacketsComeBack(t, fields, RuntimeOf(mode, protocol), data);
    if mode.Strict? { DecodedPacketsAreTheirBytes(t, fields, RuntimeOf(mode, protocol), data); }
  }

  /** In strict mode encoding and decoding are inverse: bytes decode to a value exactly when the value encodes to them
    * and its strings fit. */
  lemma StrictDecodingInvertsEncoding(t: Types, fields: Fields, protocol: Protocol, value: Store<Datum>,
                                      data: seq<byte>)
    requires Declarations(t, fields, {}).Some? && DistinctNames(Declarations(t, fields, {}).value)
    requires IsValue(value, Declarations(t, fields, {}).value)
    ensures var w := RuntimeOf(R.Strict, protocol);
            var puts, gets := Codecs(t, fields, [], true, {}), Codecs(t, fields, [], false, {});
            && puts.Some? && gets.Some?
            && (Decode(w, gets.value, data) == Some(value)
                <==> Write(w, puts.value, value) == Some(data) && TextsFit(puts.value, value))
  {
    PacketsComeBackExactly(t, fields, R.Strict, protocol, value);
    DecodedComeBack(t, fields, R.Strict, protocol, data);
  }

  // The limits show.

  const OF_ONE := Field("text", Name("string"), NoFields)

  function OneText(): Types {
    Types(map["string" := Text], map[], map[], (name: string) => name)
  }

  /** A packet of one string of 2^20 + 1 bytes is encoded, and no decoder takes it. */
  lemma LongTextIsLost(mode: R.Mode, protocol: Protocol)
    ensures var w, value := RuntimeOf(mode, protocol), map[["text"] := Block(seq(R.MAX_STRING_BYTES + 1, _ => 0))];
            var puts, gets := Codecs(OneText(), OF_ONE, [], true, {}), Codecs(OneText(), OF_ONE, [], false, {});
            puts.Some? && gets.Some? && Write(w, puts.value, value).Some?
            && Decode(w, gets.value, Write(w, puts.value, value).value).None?
  {
    var w, v := RuntimeOf(mode, protocol), Block(seq(R.MAX_STRING_BYTES + 1, _ => 0));
    var value: Store<Datum> := map[["text"] := v];
    var members := Member("text", Leaf(Scalar(Text)), NoMembers);
    assert Declarations(OneText(), OF_ONE, {}) == Some(members);
    assert [] + ["text"] == ["text"];
    assert MemberActions(members, [], false) == [C.Get(Scalar(Text), ["text"])];
    assert Paths(MemberActions(members, [], false)[1..]) == {};
    PacketsComeBackExactly(OneText(), OF_ONE, mode, protocol, value);
    var puts := Codecs(OneText(), OF_ONE, [], true, {}).value;
    assert puts == [C.Put(Scalar(Text), ["text"])];
    assert puts[1..] == [] && w.put(Scalar(Text), v).Some?;
    assert TooLong(puts[0].format, value[puts[0].path]);
  }
}
