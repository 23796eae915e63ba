/** The envelope of a chunk packet, in the ten layouts it has had. */
module ChunkEnvelope {
  import opened Bytes
  import opened Wrappers
  import opened Readers
  import P = Primitives
  import Parser = Nbt

  /** Layouts differ in flags, heightmaps, biomes and what follows the chunk data. The last four are modern. */
  datatype Layout =
    | V1_13 | V1_14 | FixedBiomes | FixedBiomesOldData | CountedBiomes | V1_17
    | NamedNbtTrust | NamedNbt | AnonymousNbt | RegistryHeightmaps

  predicate IsModern(l: Layout) {
    l.NamedNbtTrust? || l.NamedNbt? || l.AnonymousNbt? || l.RegistryHeightmaps?
  }

  predicate HasFixedBiomes(l: Layout) {
    l.FixedBiomes? || l.FixedBiomesOldData?
  }

  /** How many bytes one complete NBT value takes off the front, with or without a named root. */
  type Nbt = (bool, seq<byte>) -> Option<nat>

  /** NBT delimits itself: what a value takes is decided by the bytes it takes. */
  ghost predicate SelfDelimiting(nbt: Nbt) {
    forall named, s: seq<byte>, t: seq<byte> :: Decided(nbt(named, s), s, nbt(named, t), t)
  }

  ghost predicate Decided(n: Option<nat>, s: seq<byte>, n': Option<nat>, t: seq<byte>) {
    n.Some? ==> n.value <= |s| && (s[..n.value] <= t ==> n' == n)
  }

  const MAX_BIOMES: nat := 1024

  datatype Flags = Flags(groundUp: bool, ignoreOldData: bool, maskWords: nat, mask: nat)

  datatype Chunk = Chunk(x: int32, z: int32, flags: Flags, heightmaps: seq<byte>, biomes: seq<int32>,
                         data: seq<byte>, auxiliary: seq<byte>)

  /** The section mask is a uint64_t. */
  predicate HasCTypes(c: Chunk) {
    c.flags.mask < WORD * WORD
  }

  // Each section: what the encoder writes for it (None when it refuses), and what the decoder makes of it.

  function PositionBytes(x: int32, z: int32): seq<byte>
  {
    P.I32Bytes(x) + P.I32Bytes(z)
  }

  function ReadPosition(s: seq<byte>): (r: Read<(int32, int32)>)
  {
    var x := ReadI32(s);
    if x.Fail? then Fail else
      var z := ReadI32(x.rest);
      if z.Fail? then Fail else Got((x.value, z.value), z.rest)
  }

  const NO_FLAGS := Flags(false, false, 0, 0)

  function FlagsBytes(l: Layout, f: Flags): Option<seq<byte>>
    requires f.mask < WORD * WORD
  {
    if IsModern(l) then
      if f == NO_FLAGS then Some([]) else None
    else if l.V1_17? then
      if !f.groundUp || f.ignoreOldData || f.maskWords > 1 || (f.maskWords == 0 && f.mask != 0) then None
      else Some(P.VarIntBytes(f.maskWords) + if f.maskWords == 1 then U64Bytes(f.mask) else [])
    else if f.maskWords != 1 || f.mask > 0xffff || (f.ignoreOldData && !l.FixedBiomesOldData?) then None
    else Some(BoolBytes(f.groundUp) + (if l.FixedBiomesOldData? then BoolBytes(f.ignoreOldData) else [])
              + P.VarIntBytes(f.mask))
  }

  function ReadFlags(l: Layout, s: seq<byte>): (r: Read<Flags>)
    ensures r.Got? ==> r.value.mask < WORD * WORD
  {
    if IsModern(l) then Got(NO_FLAGS, s)
    else if l.V1_17? then
      var words := ReadVarInt(s);
      if words.Fail? || words.value < 0 || words.value > 1 then Fail
      else if words.value == 0 then Got(Flags(true, false, 0, 0), words.rest)
      else
        var mask := ReadU64(words.rest);
        if mask.Fail? then Fail else Got(Flags(true, false, 1, mask.value), mask.rest)
    else
      var groundUp := ReadBool(s);
      if groundUp.Fail? then Fail else
        var oldData := if l.FixedBiomesOldData? then ReadBool(groundUp.rest) else Got(false, groundUp.rest);
        if oldData.Fail? then Fail else
          var mask := ReadVarInt(oldData.rest);
          if mask.Fail? || mask.value < 0 || mask.value > 0xffff then Fail
          else Got(Flags(groundUp.value, oldData.value, 1, mask.value), mask.rest)
  }

  /** A VarInt count of at most `limit`, and `unit` bytes for each. */
  function SkipCounted(limit: nat, unit: nat, s: seq<byte>): (r: Read<()>)
    ensures r.Got? ==> |r.rest| <= |s|
  {
    var n := ReadVarInt(s);
    if n.Fail? || n.value < 0 || n.value > limit then Fail else
      var b := ReadBytes(n.value * unit, n.rest);
      if b.Fail? then Fail else Got((), b.rest)
  }

  /** Heightmaps of the registry form: up to 16, each a type and up to 64 words. */
  function ReadRegistry(s: seq<byte>): (r: Read<()>) {
    var n := ReadVarInt(s);
    if n.Fail? || n.value < 0 || n.value > 16 then Fail else
      var maps := ReadList(ReadMap, n.value, n.rest);
      if maps.Fail? then Fail else Got((), maps.rest)
  }

  function ReadMap(s: seq<byte>): (r: Read<()>) {
    var kind := ReadVarInt(s);
    if kind.Fail? || kind.value < 0 then Fail else SkipCounted(64, 8, kind.rest)
  }

  function HeightmapBytes(nbt: Nbt, l: Layout, h: seq<byte>): Option<seq<byte>> {
    if l.V1_13? then
      if h == [] then Some([]) else None
    else if l.RegistryHeightmaps? then
      if ReadRegistry(h) == Got((), []) then Some(h) else None
    else if nbt(!l.AnonymousNbt?, h) == Some(|h|) then Some(h)
    else None
  }

  function ReadHeightmaps(nbt: Nbt, l: Layout, s: seq<byte>): (r: Read<seq<byte>>) {
    if l.V1_13? then Got([], s)
    else if l.RegistryHeightmaps? then
      var r := ReadRegistry(s);
      RegistryStays(s, s);
      if r.Fail? then Fail else Got(Taken(s, r.rest), r.rest)
    else
      var n := nbt(!l.AnonymousNbt?, s);
      if n.None? then Fail else ReadBytes(n.value, s)
  }

  function BiomeBytes(fixed: bool, b: seq<int32>): seq<byte>
  {
    if b == [] then []
    else OneBiome(fixed, b[0]) + BiomeBytes(fixed, b[1..])
  }

  function OneBiome(fixed: bool, biome: int32): seq<byte>
  {
    if fixed then P.I32Bytes(biome) else P.VarIntBytes(biome)
  }

  function BiomeReader(fixed: bool): seq<byte> -> Read<int32> {
    if fixed then ReadI32 else ReadVarInt
  }

  function ReadBiomeList(fixed: bool, n: nat, s: seq<byte>): (r: Read<seq<int32>>)
    ensures r.Got? ==> |r.value| == n
  {
    ReadList(BiomeReader(fixed), n, s)
  }

  function CountedBytes(b: seq<int32>): Option<seq<byte>>
  {
    if |b| > MAX_BIOMES then None else Some(P.VarIntBytes(|b|) + BiomeBytes(false, b))
  }

  function ReadCounted(s: seq<byte>): (r: Read<seq<int32>>)
    ensures r.Got? ==> |r.value| <= MAX_BIOMES
  {
    var n := ReadVarInt(s);
    if n.Fail? || n.value < 0 || n.value > MAX_BIOMES then Fail else ReadBiomeList(false, n.value, n.rest)
  }

  function BiomesBytes(l: Layout, groundUp: bool, b: seq<int32>): Option<seq<byte>>
  {
    if HasFixedBiomes(l) then
      if |b| != (if groundUp then MAX_BIOMES else 0) then None else Some(BiomeBytes(true, b))
    else if l.V1_17? || (l.CountedBiomes? && groundUp) then CountedBytes(b)
    else if b == [] then Some([])
    else None
  }

  function ReadBiomes(l: Layout, groundUp: bool, s: seq<byte>): (r: Read<seq<int32>>)
  {
    if HasFixedBiomes(l) then ReadBiomeList(true, if groundUp then MAX_BIOMES else 0, s)
    else if l.V1_17? || (l.CountedBiomes? && groundUp) then ReadCounted(s)
    else Got([], s)
  }

  /** A bit mask of up to 64 words. */
  function SkipMask(s: seq<byte>): Read<()> {
    SkipCounted(64, 8, s)
  }

  function SkipLightArray(s: seq<byte>): Read<()> {
    SkipCounted(2048, 1, s)
  }

  /** Up to 64 light arrays of up to 2048 bytes. */
  function SkipLights(s: seq<byte>): Read<()> {
    var count := ReadVarInt(s);
    if count.Fail? || count.value < 0 || count.value > 64 then Fail else
      var arrays := ReadList(SkipLightArray, count.value, count.rest);
      if arrays.Fail? then Fail else Got((), arrays.rest)
  }

  /** The light data of a modern chunk, and nothing behind it. */
  predicate IsAuxiliary(l: Layout, s: seq<byte>) {
    var trust := if l.NamedNbtTrust? then ReadBool(s) else Got(false, s);
    trust.Got? &&
    var masks := ReadList(SkipMask, 4, trust.rest);
    masks.Got? &&
    var lights := ReadList(SkipLights, 2, masks.rest);
    lights.Got? && lights.rest == []
  }

  /** Only a modern chunk has anything behind its data. */
  predicate EndsWell(l: Layout, s: seq<byte>) {
    if IsModern(l) then IsAuxiliary(l, s) else s == []
  }

  function TailBytes(l: Layout, data: seq<byte>, auxiliary: seq<byte>): Option<seq<byte>> {
    if |data| >= 0x8000_0000 || !EndsWell(l, auxiliary) then None
    else Some(BufferBytes(data) + P.VarIntBytes(0) + auxiliary)
  }

  /** The chunk data, and no block entities. */
  function ReadData(s: seq<byte>): Read<seq<byte>> {
    var data := ReadBuffer(s);
    if data.Fail? then Fail else
      var entities := ReadVarInt(data.rest);
      if entities.Fail? || entities.value != 0 then Fail else Got(data.value, entities.rest)
  }

  // The whole envelope.

  function Both(a: Option<seq<byte>>, b: Option<seq<byte>>): Option<seq<byte>> {
    if a.Some? && b.Some? then Some(a.value + b.value) else None
  }

  function Encoded(nbt: Nbt, l: Layout, c: Chunk): Option<seq<byte>>
    requires HasCTypes(c)
  {
    Both(Some(PositionBytes(c.x, c.z)), Both(FlagsBytes(l, c.flags), BodyBytes(nbt, l, c)))
  }

  function BodyBytes(nbt: Nbt, l: Layout, c: Chunk): Option<seq<byte>> {
    Both(HeightmapBytes(nbt, l, c.heightmaps),
         Both(BiomesBytes(l, c.flags.groundUp, c.biomes), TailBytes(l, c.data, c.auxiliary)))
  }

  /** What the decoder makes of a payload: section after section, up to the last byte. */
  function Decoded(nbt: Nbt, l: Layout, s: seq<byte>): (r: Option<Chunk>)
    ensures r.Some? ==> HasCTypes(r.value)
  {
    var position := ReadPosition(s);
    if position.Fail? then None else WithFlags(nbt, l, position.value.0, position.value.1, position.rest)
  }

  function WithFlags(nbt: Nbt, l: Layout, x: int32, z: int32, s: seq<byte>): (r: Option<Chunk>)
    ensures r.Some? ==> HasCTypes(r.value)
  {
    var flags := ReadFlags(l, s);
    if flags.Fail? then None else WithMaps(nbt, l, x, z, flags.value, flags.rest)
  }

  function WithMaps(nbt: Nbt, l: Layout, x: int32, z: int32, flags: Flags, s: seq<byte>): (r: Option<Chunk>)
    ensures r.Some? ==> r.value.flags == flags
  {
    var heightmaps := ReadHeightmaps(nbt, l, s);
    if heightmaps.Fail? then None else
      var biomes := ReadBiomes(l, flags.groundUp, heightmaps.rest);
      if biomes.Fail? then None else WithData(l, x, z, flags, heightmaps.value, biomes.value, biomes.rest)
  }

  function WithData(l: Layout, x: int32, z: int32, flags: Flags, heightmaps: seq<byte>, biomes: seq<int32>, s: seq<byte>)
    : (r: Option<Chunk>)
    ensures r.Some? ==> r.value.flags == flags
  {
    var data := ReadData(s);
    if data.Fail? || !EndsWell(l, data.rest) then None
    else Some(Chunk(x, z, flags, heightmaps, biomes, data.value, data.rest))
  }

  // Each section comes back, and what was read can be written.

  lemma PositionBack(x: int32, z: int32, t: seq<byte>)
    ensures ReadPosition(PositionBytes(x, z) + t) == Got((x, z), t)
  {
    assert PositionBytes(x, z) + t == P.I32Bytes(x) + (P.I32Bytes(z) + t);
    I32Back(x, P.I32Bytes(z) + t);
    I32Back(z, t);
  }

  lemma FlagsBack(l: Layout, f: Flags, t: seq<byte>)
    requires f.mask < WORD * WORD && FlagsBytes(l, f).Some?
    ensures ReadFlags(l, FlagsBytes(l, f).value + t) == Got(f, t)
  {
    var s := FlagsBytes(l, f).value + t;
    if IsModern(l) {
      assert s == t;
    } else if l.V1_17? {
      var mask := if f.maskWords == 1 then U64Bytes(f.mask) else [];
      assert s == P.VarIntBytes(f.maskWords) + (mask + t);
      VarIntBack(f.maskWords, mask + t);
      if f.maskWords == 1 { U64Back(f.mask, t); } else { assert mask + t == t; }
    } else {
      OlderFlagsBack(l, f, t);
    }
  }

  lemma OlderFlagsBack(l: Layout, f: Flags, t: seq<byte>)
    requires f.mask < WORD * WORD && FlagsBytes(l, f).Some? && !IsModern(l) && !l.V1_17?
    ensures ReadFlags(l, FlagsBytes(l, f).value + t) == Got(f, t)
  {
    var oldData := if l.FixedBiomesOldData? then BoolBytes(f.ignoreOldData) else [];
    var mask := P.VarIntBytes(f.mask) + t;
    assert FlagsBytes(l, f).value + t == BoolBytes(f.groundUp) + (oldData + mask);
    BoolBack(f.groundUp, oldData + mask);
    if l.FixedBiomesOldData? { BoolBack(f.ignoreOldData, mask); } else { assert oldData + mask == mask; }
    VarIntBack(f.mask, t);
  }

  lemma HeightmapsBack(nbt: Nbt, l: Layout, h: seq<byte>, t: seq<byte>)
    requires SelfDelimiting(nbt) && HeightmapBytes(nbt, l, h).Some?
    ensures ReadHeightmaps(nbt, l, HeightmapBytes(nbt, l, h).value + t) == Got(h, t)
  {
    if l.V1_13? {
      assert [] + t == t;
    } else if l.RegistryHeightmaps? {
      RegistryStays(h, h + t);
      assert (h + t)[|h|..] == t && Taken(h + t, t) == h;
    } else {
      var named := !l.AnonymousNbt?;
      assert Decided(nbt(named, h), h, nbt(named, h + t), h + t);
      assert h[..|h|] <= h + t;
      BytesBack(h, t);
    }
  }

  // Heightmaps of the registry form delimit themselves.

  lemma CountedStays(limit: nat, unit: nat, s: seq<byte>, t: seq<byte>)
    ensures StaysAt(SkipCounted(limit, unit, s), s, SkipCounted(limit, unit, t), t)
  {
    var count := ReadVarInt(s);
    if count.Got? && count.value >= 0 {
      var t', n := Behind(s, t, count.rest), count.value * unit;
      VarIntStays(s, t);
      BytesStay(n, count.rest, t');
      BothStay(s, t, count, ReadVarInt(t), ReadBytes(n, count.rest), ReadBytes(n, t'),
               SkipCounted(limit, unit, s), SkipCounted(limit, unit, t));
    }
  }

  lemma MapStays(s: seq<byte>, t: seq<byte>)
    ensures StaysAt(ReadMap(s), s, ReadMap(t), t)
  {
    var kind := ReadVarInt(s);
    if kind.Got? {
      var t' := Behind(s, t, kind.rest);
      VarIntStays(s, t);
      CountedStays(64, 8, kind.rest, t');
      BothStay(s, t, kind, ReadVarInt(t), SkipCounted(64, 8, kind.rest), SkipCounted(64, 8, t'), ReadMap(s), ReadMap(t));
    }
  }

  lemma MapsStay(count: nat, s: seq<byte>, t: seq<byte>)
    ensures StaysAt(ReadList(ReadMap, count, s), s, ReadList(ReadMap, count, t), t)
  {
    forall s, t ensures StaysAt(ReadMap(s), s, ReadMap(t), t) { MapStays(s, t); }
    ListStays(ReadMap, count, s, t);
  }

  lemma RegistryStays(s: seq<byte>, t: seq<byte>)
    ensures StaysAt(ReadRegistry(s), s, ReadRegistry(t), t)
  {
    var count := ReadVarInt(s);
    if count.Got? && count.value >= 0 {
      var t' := Behind(s, t, count.rest);
      VarIntStays(s, t);
      MapsStay(count.value, count.rest, t');
      BothStay(s, t, count, ReadVarInt(t),
               ReadList(ReadMap, count.value, count.rest), ReadList(ReadMap, count.value, t'),
               ReadRegistry(s), ReadRegistry(t));
    }
  }

  lemma OneBiomeBack(fixed: bool, biome: int32, t: seq<byte>)
    ensures BiomeReader(fixed)(OneBiome(fixed, biome) + t) == Got(biome, t)
  {
    if fixed { I32Back(biome, t); } else { VarIntBack(biome, t); }
  }

  lemma {:induction false} BiomeListBack(fixed: bool, b: seq<int32>, t: seq<byte>)
    ensures ReadBiomeList(fixed, |b|, BiomeBytes(fixed, b) + t) == Got(b, t)
  {
    if b == [] {
      assert [] + t == t;
    } else {
      var more := BiomeBytes(fixed, b[1..]) + t;
      BiomeListBack(fixed, b[1..], t);
      Regroup(OneBiome(fixed, b[0]), BiomeBytes(fixed, b[1..]), t);
      OneBiomeBack(fixed, b[0], more);
      assert [b[0]] + b[1..] == b;
    }
  }

  lemma BiomesBack(l: Layout, groundUp: bool, b: seq<int32>, t: seq<byte>)
    requires BiomesBytes(l, groundUp, b).Some?
    ensures ReadBiomes(l, groundUp, BiomesBytes(l, groundUp, b).value + t) == Got(b, t)
  {
    if HasFixedBiomes(l) {
      BiomeListBack(true, b, t);
    } else if l.V1_17? || (l.CountedBiomes? && groundUp) {
      Regroup(P.VarIntBytes(|b|), BiomeBytes(false, b), t);
      VarIntBack(|b|, BiomeBytes(false, b) + t);
      BiomeListBack(false, b, t);
    } else {
      assert [] + t == t;
    }
  }

  lemma TailBack(l: Layout, data: seq<byte>, auxiliary: seq<byte>)
    requires TailBytes(l, data, auxiliary).Some?
    ensures ReadData(TailBytes(l, data, auxiliary).value) == Got(data, auxiliary)
  {
    var zero := P.VarIntBytes(0) + auxiliary;
    Regroup(BufferBytes(data), P.VarIntBytes(0), auxiliary);
    BufferBack(data, zero);
    VarIntBack(0, auxiliary);
  }

  /** Sections that are read one after the other. */
  lemma SectionsBack(nbt: Nbt, l: Layout, c: Chunk, whole: seq<byte>, behindMaps: seq<byte>, tail: seq<byte>)
    requires ReadHeightmaps(nbt, l, whole) == Got(c.heightmaps, behindMaps)
    requires ReadBiomes(l, c.flags.groundUp, behindMaps) == Got(c.biomes, tail)
    requires ReadData(tail) == Got(c.data, c.auxiliary) && EndsWell(l, c.auxiliary)
    ensures WithMaps(nbt, l, c.x, c.z, c.flags, whole) == Some(c)
  {}

  lemma BodyBack(nbt: Nbt, l: Layout, c: Chunk)
    requires SelfDelimiting(nbt) && BodyBytes(nbt, l, c).Some?
    ensures WithMaps(nbt, l, c.x, c.z, c.flags, BodyBytes(nbt, l, c).value) == Some(c)
  {
    PartsBack(nbt, l, c, HeightmapBytes(nbt, l, c.heightmaps).value, BiomesBytes(l, c.flags.groundUp, c.biomes).value,
              TailBytes(l, c.data, c.auxiliary).value);
  }

  lemma PartsBack(nbt: Nbt, l: Layout, c: Chunk, maps: seq<byte>, biomes: seq<byte>, tail: seq<byte>)
    requires SelfDelimiting(nbt) && HeightmapBytes(nbt, l, c.heightmaps) == Some(maps)
    requires BiomesBytes(l, c.flags.groundUp, c.biomes) == Some(biomes)
    requires TailBytes(l, c.data, c.auxiliary) == Some(tail)
    ensures WithMaps(nbt, l, c.x, c.z, c.flags, maps + (biomes + tail)) == Some(c)
  {
    HeightmapsBack(nbt, l, c.heightmaps, biomes + tail);
    BiomesBack(l, c.flags.groundUp, c.biomes, tail);
    TailBack(l, c.data, c.auxiliary);
    SectionsBack(nbt, l, c, maps + (biomes + tail), biomes + tail, tail);
  }

  /** What the encoder accepts in any layout decodes to the same chunk, with nothing left over. */
  lemma EncodedComesBack(nbt: Nbt, l: Layout, c: Chunk)
    requires SelfDelimiting(nbt) && HasCTypes(c)
    ensures Encoded(nbt, l, c).Some? ==> Decoded(nbt, l, Encoded(nbt, l, c).value) == Some(c)
  {
    if Encoded(nbt, l, c).Some? {
      var body := BodyBytes(nbt, l, c).value;
      PositionBack(c.x, c.z, FlagsBytes(l, c.flags).value + body);
      FlagsBack(l, c.flags, body);
      BodyBack(nbt, l, c);
    }
  }

  lemma HeightmapsAgain(nbt: Nbt, l: Layout, s: seq<byte>)
    requires SelfDelimiting(nbt) && ReadHeightmaps(nbt, l, s).Got?
    ensures HeightmapBytes(nbt, l, ReadHeightmaps(nbt, l, s).value).Some?
  {
    if l.RegistryHeightmaps? {
      RegistryStays(s, s);
      var h := Taken(s, ReadRegistry(s).rest);
      RegistryStays(s, h);
      assert Starts(s, h, |h|) && h[|h|..] == [];
    } else if !l.V1_13? {
      var named, n := !l.AnonymousNbt?, nbt(!l.AnonymousNbt?, s).value;
      assert Decided(nbt(named, s), s, nbt(named, s[..n]), s[..n]);
    }
  }

  lemma FlagsAgain(l: Layout, s: seq<byte>)
    requires ReadFlags(l, s).Got?
    ensures FlagsBytes(l, ReadFlags(l, s).value).Some?
  {
  }

  lemma BiomesAgain(l: Layout, groundUp: bool, s: seq<byte>)
    requires ReadBiomes(l, groundUp, s).Got?
    ensures BiomesBytes(l, groundUp, ReadBiomes(l, groundUp, s).value).Some?
  {
  }

  lemma TailAgain(l: Layout, s: seq<byte>)
    requires ReadData(s).Got? && EndsWell(l, ReadData(s).rest)
    ensures TailBytes(l, ReadData(s).value, ReadData(s).rest).Some?
  {
  }

  /** What the encoder accepts, section by section. */
  predicate Accepts(nbt: Nbt, l: Layout, c: Chunk)
    requires HasCTypes(c)
  {
    && FlagsBytes(l, c.flags).Some? && HeightmapBytes(nbt, l, c.heightmaps).Some?
    && BiomesBytes(l, c.flags.groundUp, c.biomes).Some? && TailBytes(l, c.data, c.auxiliary).Some?
  }

  lemma DecodedIsAccepted(nbt: Nbt, l: Layout, s: seq<byte>)
    requires SelfDelimiting(nbt) && Decoded(nbt, l, s).Some?
    ensures Accepts(nbt, l, Decoded(nbt, l, s).value)
  {
    var position := ReadPosition(s);
    var flags := ReadFlags(l, position.rest);
    var heightmaps := ReadHeightmaps(nbt, l, flags.rest);
    var biomes := ReadBiomes(l, flags.value.groundUp, heightmaps.rest);
    FlagsAgain(l, position.rest);
    HeightmapsAgain(nbt, l, flags.rest);
    BiomesAgain(l, flags.value.groundUp, heightmaps.rest);
    TailAgain(l, biomes.rest);
  }

  lemma AcceptsWhatEncodes(nbt: Nbt, l: Layout, c: Chunk)
    requires HasCTypes(c)
    ensures Encoded(nbt, l, c).Some? <==> Accepts(nbt, l, c)
  {
  }

  /** Every chunk that is decoded can be encoded again, and comes back. */
  lemma DecodedCanBeEncoded(nbt: Nbt, l: Layout, s: seq<byte>)
    requires SelfDelimiting(nbt)
    ensures var c := Decoded(nbt, l, s);
            c.Some? ==> Encoded(nbt, l, c.value).Some? && Decoded(nbt, l, Encoded(nbt, l, c.value).value) == c
  {
    var c := Decoded(nbt, l, s);
    if c.Some? {
      DecodedIsAccepted(nbt, l, s);
      AcceptsWhatEncodes(nbt, l, c.value);
      EncodedComesBack(nbt, l, c.value);
    }
  }

  // The rendered decoders.

  method DecodeRegistry(reader: Reader) returns (ok: bool)
    modifies reader
    ensures reader.Took(ReadRegistry(old(reader.rest)), ok, ())
  {
    var count: int32, maps: seq<()>;
    ok, count := reader.VarInt();
    if !ok || count < 0 || count > 16 { return false; }
    ok, maps := reader.All(ReadMap, count);
  }

  method DecodeAuxiliary(l: Layout, auxiliary: seq<byte>) returns (ok: bool)
    ensures ok == IsAuxiliary(l, auxiliary)
  {
    var reader := new Reader(auxiliary);
    var skipped: seq<()>;
    if l.NamedNbtTrust? {
      var trust: bool;
      ok, trust := reader.Bool();
      if !ok { return; }
    }
    ok, skipped := reader.All(SkipMask, 4);
    if !ok { return; }
    ok, skipped := reader.All(SkipLights, 2);
    ok := ok && reader.rest == [];
  }

  method DecodeMaskWords(reader: Reader) returns (ok: bool, flags: Flags)
    modifies reader
    ensures reader.Took(ReadFlags(V1_17, old(reader.rest)), ok, flags)
  {
    var words: int32, mask: nat := 0, 0;
    flags := NO_FLAGS;
    ok, words := reader.VarInt();
    if !ok || words < 0 || words > 1 { return false, flags; }
    if words == 1 {
      ok, mask := reader.U64();
      if !ok { return; }
    }
    flags := Flags(true, false, words, mask);
  }

  method DecodeGroundUp(l: Layout, reader: Reader) returns (ok: bool, flags: Flags)
    requires !IsModern(l) && !l.V1_17?
    modifies reader
    ensures reader.Took(ReadFlags(l, old(reader.rest)), ok, flags)
  {
    var groundUp, ignoreOldData, mask: int32 := false, false, 0;
    flags := NO_FLAGS;
    ok, groundUp := reader.Bool();
    if !ok { return; }
    if l.FixedBiomesOldData? {
      ok, ignoreOldData := reader.Bool();
      if !ok { return; }
    }
    ok, mask := reader.VarInt();
    if !ok || mask < 0 || mask > 0xffff { return false, flags; }
    flags := Flags(groundUp, ignoreOldData, 1, mask);
  }

  method DecodeFlags(l: Layout, reader: Reader) returns (ok: bool, flags: Flags)
    modifies reader
    ensures reader.Took(ReadFlags(l, old(reader.rest)), ok, flags)
  {
    if IsModern(l) { return true, NO_FLAGS; }
    if l.V1_17? {
      ok, flags := DecodeMaskWords(reader);
    } else {
      ok, flags := DecodeGroundUp(l, reader);
    }
  }

  /** The heightmaps are kept as the bytes they take. */
  method DecodeRegistryBytes(reader: Reader) returns (ok: bool, heightmaps: seq<byte>)
    modifies reader
    ensures var s := old(reader.rest);
            var r := ReadRegistry(s);
            ok == r.Got? && (ok ==> reader.rest == r.rest && |r.rest| <= |s| && heightmaps == Taken(s, r.rest))
  {
    var start := reader.rest;
    RegistryStays(start, start);
    ok := DecodeRegistry(reader);
    heightmaps := if ok then start[..|start| - |reader.rest|] else [];
  }

  method DecodeHeightmaps(nbt: Nbt, l: Layout, reader: Reader) returns (ok: bool, heightmaps: seq<byte>)
    modifies reader
    ensures reader.Took(ReadHeightmaps(nbt, l, old(reader.rest)), ok, heightmaps)
  {
    if l.V1_13? { return true, []; }
    if l.RegistryHeightmaps? {
      ok, heightmaps := DecodeRegistryBytes(reader);
    } else {
      var size := nbt(!l.AnonymousNbt?, reader.rest);
      if size.None? { return false, []; }
      ok, heightmaps := reader.Bytes(size.value);
    }
  }

  method DecodeBiomes(l: Layout, groundUp: bool, reader: Reader) returns (ok: bool, biomes: seq<int32>)
    modifies reader
    ensures reader.Took(ReadBiomes(l, groundUp, old(reader.rest)), ok, biomes)
  {
    if HasFixedBiomes(l) {
      ok, biomes := reader.All(BiomeReader(true), if groundUp then MAX_BIOMES else 0);
    } else if l.V1_17? || (l.CountedBiomes? && groundUp) {
      var count: int32;
      ok, count := reader.VarInt();
      if !ok || count < 0 || count > MAX_BIOMES { return false, []; }
      ok, biomes := reader.All(BiomeReader(false), count);
    } else {
      return true, [];
    }
  }

  method DecodePosition(reader: Reader) returns (ok: bool, x: int32, z: int32)
    modifies reader
    ensures reader.Took(ReadPosition(old(reader.rest)), ok, (x, z))
  {
    x, z := 0, 0;
    ok, x := reader.I32();
    if !ok { return; }
    ok, z := reader.I32();
  }

  method DecodeData(reader: Reader) returns (ok: bool, data: seq<byte>)
    modifies reader
    ensures reader.Took(ReadData(old(reader.rest)), ok, data)
  {
    var entities: int32;
    ok, data := reader.Buffer();
    if !ok { return; }
    ok, entities := reader.VarInt();
    ok := ok && entities == 0;
  }

  method DecodeEnd(l: Layout, rest: seq<byte>) returns (ok: bool)
    ensures ok == EndsWell(l, rest)
  {
    if IsModern(l) {
      ok := DecodeAuxiliary(l, rest);
    } else {
      ok := rest == [];
    }
  }

  method DecodeWithData(l: Layout, x: int32, z: int32, flags: Flags, heightmaps: seq<byte>, biomes: seq<int32>,
                        reader: Reader) returns (r: Option<Chunk>)
    modifies reader
    ensures r == WithData(l, x, z, flags, heightmaps, biomes, old(reader.rest))
  {
    var ok, data := DecodeData(reader);
    if !ok { return None; }
    var auxiliary := reader.rest;
    ok := DecodeEnd(l, auxiliary);
    if !ok { return None; }
    return Some(Chunk(x, z, flags, heightmaps, biomes, data, auxiliary));
  }

  method DecodeWithMaps(nbt: Nbt, l: Layout, x: int32, z: int32, flags: Flags, reader: Reader)
    returns (r: Option<Chunk>)
    modifies reader
    ensures r == WithMaps(nbt, l, x, z, flags, old(reader.rest))
  {
    var ok, heightmaps := DecodeHeightmaps(nbt, l, reader);
    if !ok { return None; }
    var biomes: seq<int32>;
    ok, biomes := DecodeBiomes(l, flags.groundUp, reader);
    if !ok { return None; }
    r := DecodeWithData(l, x, z, flags, heightmaps, biomes, reader);
  }

  method DecodeWithFlags(nbt: Nbt, l: Layout, x: int32, z: int32, reader: Reader) returns (r: Option<Chunk>)
    modifies reader
    ensures r == WithFlags(nbt, l, x, z, old(reader.rest))
  {
    var ok, flags := DecodeFlags(l, reader);
    if !ok { return None; }
    r := DecodeWithMaps(nbt, l, x, z, flags, reader);
  }

  /** The rendered decoder of a layout. */
  method DecodeChunk(nbt: Nbt, l: Layout, payload: seq<byte>) returns (r: Option<Chunk>)
    ensures r == Decoded(nbt, l, payload)
  {
    var reader := new Reader(payload);
    var ok, x, z := DecodePosition(reader);
    if !ok { return None; }
    r := DecodeWithFlags(nbt, l, x, z, reader);
  }

  /** The runtime's parser, mc_reader_nbt. */
  function RuntimeNbt(): Nbt {
    (named: bool, s: seq<byte>) => Parser.Extent(named, s)
  }

  lemma ParserIsDecided(named: bool, s: seq<byte>, t: seq<byte>)
    ensures Decided(Parser.Extent(named, s), s, Parser.Extent(named, t), t)
  {
    var n := Parser.Extent(named, s);
    if n.Some? && s[..n.value] <= t {
      assert s[..n.value] == t[..n.value];
      Parser.NbtStays(named, s, t);
      StaysIsDecided(Parser.SkipNbt(named, s), s, Parser.SkipNbt(named, t), t, n.value);
    }
  }

  lemma StaysIsDecided(r: Read<()>, s: seq<byte>, r': Read<()>, t: seq<byte>, n: nat)
    requires StaysAt(r, s, r', t) && r.Got? && n == |s| - |r.rest| && Starts(s, t, n)
    ensures r'.Got? && |t| - |r'.rest| == n
  {}

  /** It delimits itself. */
  lemma RuntimeNbtDelimits()
    ensures SelfDelimiting(RuntimeNbt())
  {
    forall named, s: seq<byte>, t: seq<byte> ensures Decided(RuntimeNbt()(named, s), s, RuntimeNbt()(named, t), t) {
      ParserIsDecided(named, s, t);
    }
  }

  /** On the runtime's own parser, what the encoder accepts in any layout decodes to the same chunk. */
  lemma RuntimeEncodedComesBack(l: Layout, c: Chunk)
    requires HasCTypes(c)
    ensures Encoded(RuntimeNbt(), l, c).Some? ==>
              Decoded(RuntimeNbt(), l, Encoded(RuntimeNbt(), l, c).value) == Some(c)
  {
    RuntimeNbtDelimits();
    EncodedComesBack(RuntimeNbt(), l, c);
  }

  /** And every chunk that is decoded can be encoded again, and comes back. */
  lemma RuntimeDecodedCanBeEncoded(l: Layout, s: seq<byte>)
    ensures var c := Decoded(RuntimeNbt(), l, s);
            c.Some? ==> Encoded(RuntimeNbt(), l, c.value).Some?
                        && Decoded(RuntimeNbt(), l, Encoded(RuntimeNbt(), l, c.value).value) == c
  {
    RuntimeNbtDelimits();
    DecodedCanBeEncoded(RuntimeNbt(), l, s);
  }

  // The rendered encoders.

  /** The bytes were added to the packet; or they could not be, because there are none or no room for them. */
  ghost predicate Emitted(before: seq<byte>, bytes: Option<seq<byte>>, capacity: nat, ok: bool, after: seq<byte>) {
    if ok then bytes.Some? && P.Wrote(before, bytes.value, after)
    else bytes.None? || |before| + |bytes.value| > capacity
  }

  lemma EmittedBoth(before: seq<byte>, a: Option<seq<byte>>, between: seq<byte>, b: Option<seq<byte>>,
                    capacity: nat, ok: bool, after: seq<byte>)
    requires Emitted(before, a, capacity, true, between) && Emitted(between, b, capacity, ok, after)
    ensures Emitted(before, Both(a, b), capacity, ok, after)
  {
    if b.Some? && ok { P.WroteBoth(before, a.value, between, b.value, after); }
  }

  method Emit(packet: P.PacketWriter, bytes: seq<byte>) returns (ok: bool)
    requires packet.Valid() && !packet.failed
    modifies packet
    ensures packet.Valid() && (ok ==> !packet.failed)
    ensures Emitted(old(packet.data), Some(bytes), packet.capacity, ok, packet.data)
  {
    ok := packet.Append(bytes);
  }

  method EmitFlags(l: Layout, f: Flags, packet: P.PacketWriter) returns (ok: bool)
    requires packet.Valid() && !packet.failed && f.mask < WORD * WORD
    modifies packet
    ensures packet.Valid() && (ok ==> !packet.failed)
    ensures Emitted(old(packet.data), FlagsBytes(l, f), packet.capacity, ok, packet.data)
  {
    if IsModern(l) {
      ok := f == NO_FLAGS;
      if ok { ok := Emit(packet, []); }
    } else if l.V1_17? {
      ok := EmitMaskWords(f, packet);
    } else {
      ok := EmitGroundUp(l, f, packet);
    }
  }

  method EmitMaskWords(f: Flags, packet: P.PacketWriter) returns (ok: bool)
    requires packet.Valid() && !packet.failed && f.mask < WORD * WORD
    modifies packet
    ensures packet.Valid() && (ok ==> !packet.failed)
    ensures Emitted(old(packet.data), FlagsBytes(V1_17, f), packet.capacity, ok, packet.data)
  {
    if !f.groundUp || f.ignoreOldData || f.maskWords > 1 || (f.maskWords == 0 && f.mask != 0) { return false; }
    ghost var before, words := packet.data, P.VarIntBytes(f.maskWords);
    ok := Emit(packet, P.VarIntBytes(f.maskWords));
    if !ok { return; }
    ghost var between := packet.data;
    var mask := if f.maskWords == 1 then U64Bytes(f.mask) else [];
    ok := Emit(packet, mask);
    EmittedBoth(before, Some(words), between, Some(mask), packet.capacity, ok, packet.data);
  }

  method EmitGroundUp(l: Layout, f: Flags, packet: P.PacketWriter) returns (ok: bool)
    requires packet.Valid() && !packet.failed && f.mask < WORD * WORD && !IsModern(l) && !l.V1_17?
    modifies packet
    ensures packet.Valid() && (ok ==> !packet.failed)
    ensures Emitted(old(packet.data), FlagsBytes(l, f), packet.capacity, ok, packet.data)
  {
    if f.maskWords != 1 || f.mask > 0xffff { return false; }
    ghost var data0 := packet.data;
    var groundUp := BoolBytes(f.groundUp);
    ok := Emit(packet, groundUp);
    if !ok { return; }
    ghost var data1 := packet.data;
    var oldData := if l.FixedBiomesOldData? then BoolBytes(f.ignoreOldData) else [];
    if f.ignoreOldData && !l.FixedBiomesOldData? { return false; }
    ok := Emit(packet, oldData);
    EmittedBoth(data0, Some(groundUp), data1, Some(oldData), packet.capacity, ok, packet.data);
    if !ok { return; }
    ghost var data2 := packet.data;
    ok := Emit(packet, P.VarIntBytes(f.mask));
    EmittedBoth(data0, Some(groundUp + oldData), data2, Some(P.VarIntBytes(f.mask)), packet.capacity, ok, packet.data);
  }

  method EmitHeightmaps(nbt: Nbt, l: Layout, h: seq<byte>, packet: P.PacketWriter) returns (ok: bool)
    requires packet.Valid() && !packet.failed
    modifies packet
    ensures packet.Valid() && (ok ==> !packet.failed)
    ensures Emitted(old(packet.data), HeightmapBytes(nbt, l, h), packet.capacity, ok, packet.data)
  {
    if l.V1_13? {
      ok := h == [];
    } else if l.RegistryHeightmaps? {
      var reader := new Reader(h);
      ok := DecodeRegistry(reader);
      ok := ok && reader.rest == [];
    } else {
      ok := nbt(!l.AnonymousNbt?, h) == Some(|h|);
    }
    if ok { ok := Emit(packet, h); }
  }

  lemma {:induction false} BiomeBytesAppend(fixed: bool, a: seq<int32>, b: seq<int32>)
    ensures BiomeBytes(fixed, a + b) == BiomeBytes(fixed, a) + BiomeBytes(fixed, b)
  {
    if a == [] {
      assert a + b == b;
    } else {
      assert (a + b)[1..] == a[1..] + b;
      BiomeBytesAppend(fixed, a[1..], b);
      Regroup(OneBiome(fixed, a[0]), BiomeBytes(fixed, a[1..]), BiomeBytes(fixed, b));
    }
  }

  lemma BiomeBytesStep(fixed: bool, b: seq<int32>, i: nat)
    requires i < |b|
    ensures BiomeBytes(fixed, b[..i + 1]) == BiomeBytes(fixed, b[..i]) + OneBiome(fixed, b[i])
    ensures |BiomeBytes(fixed, b[..i + 1])| <= |BiomeBytes(fixed, b)|
  {
    assert b[..i + 1] == b[..i] + [b[i]] && b == b[..i + 1] + b[i + 1..];
    BiomeBytesAppend(fixed, b[..i], [b[i]]);
    BiomeBytesAppend(fixed, b[..i + 1], b[i + 1..]);
    assert BiomeBytes(fixed, [b[i]]) == OneBiome(fixed, b[i]) + [];
  }

  method EmitBiomeList(fixed: bool, b: seq<int32>, packet: P.PacketWriter) returns (ok: bool)
    requires packet.Valid() && !packet.failed
    modifies packet
    ensures packet.Valid() && (ok ==> !packet.failed)
    ensures Emitted(old(packet.data), Some(BiomeBytes(fixed, b)), packet.capacity, ok, packet.data)
  {
    ghost var before := packet.data;
    assert b[..0] == [];
    for index := 0 to |b|
      invariant packet.Valid() && !packet.failed
      invariant Emitted(before, Some(BiomeBytes(fixed, b[..index])), packet.capacity, true, packet.data)
    {
      BiomeBytesStep(fixed, b, index);
      ghost var between := packet.data;
      ok := Emit(packet, OneBiome(fixed, b[index]));
      EmittedBoth(before, Some(BiomeBytes(fixed, b[..index])), between, Some(OneBiome(fixed, b[index])),
                  packet.capacity, ok, packet.data);
      if !ok { return; }
    }
    assert b[..|b|] == b;
    ok := true;
  }

  method EmitBiomes(l: Layout, groundUp: bool, b: seq<int32>, packet: P.PacketWriter) returns (ok: bool)
    requires packet.Valid() && !packet.failed
    modifies packet
    ensures packet.Valid() && (ok ==> !packet.failed)
    ensures Emitted(old(packet.data), BiomesBytes(l, groundUp, b), packet.capacity, ok, packet.data)
  {
    if HasFixedBiomes(l) {
      if |b| != (if groundUp then MAX_BIOMES else 0) { return false; }
      ok := EmitBiomeList(true, b, packet);
    } else if l.V1_17? || (l.CountedBiomes? && groundUp) {
      if |b| > MAX_BIOMES { return false; }
      ghost var before, count := packet.data, P.VarIntBytes(|b|);
      ok := Emit(packet, P.VarIntBytes(|b|));
      if !ok { return; }
      ghost var between := packet.data;
      ok := EmitBiomeList(false, b, packet);
      EmittedBoth(before, Some(count), between, Some(BiomeBytes(false, b)), packet.capacity, ok, packet.data);
    } else {
      ok := b == [];
      if ok { ok := Emit(packet, []); }
    }
  }

  method EmitTail(l: Layout, data: seq<byte>, auxiliary: seq<byte>, packet: P.PacketWriter) returns (ok: bool)
    requires packet.Valid() && !packet.failed
    modifies packet
    ensures packet.Valid() && (ok ==> !packet.failed)
    ensures Emitted(old(packet.data), TailBytes(l, data, auxiliary), packet.capacity, ok, packet.data)
  {
    ok := DecodeEnd(l, auxiliary);
    if !ok || |data| >= 0x8000_0000 { return false; }
    ghost var data0 := packet.data;
    var buffer, zero := BufferBytes(data), P.VarIntBytes(0);
    ok := Emit(packet, buffer);
    if !ok { return; }
    ghost var data1 := packet.data;
    ok := Emit(packet, zero);
    EmittedBoth(data0, Some(buffer), data1, Some(zero), packet.capacity, ok, packet.data);
    if !ok { return; }
    ghost var data2 := packet.data;
    ok := Emit(packet, auxiliary);
    EmittedBoth(data0, Some(buffer + zero), data2, Some(auxiliary), packet.capacity, ok, packet.data);
  }

  method EmitBody(nbt: Nbt, l: Layout, c: Chunk, packet: P.PacketWriter) returns (ok: bool)
    requires packet.Valid() && !packet.failed
    modifies packet
    ensures packet.Valid() && (ok ==> !packet.failed)
    ensures Emitted(old(packet.data), BodyBytes(nbt, l, c), packet.capacity, ok, packet.data)
  {
    ghost var heightmaps, biomes := HeightmapBytes(nbt, l, c.heightmaps), BiomesBytes(l, c.flags.groundUp, c.biomes);
    ghost var tail := TailBytes(l, c.data, c.auxiliary);
    ghost var data0 := packet.data;
    ok := EmitHeightmaps(nbt, l, c.heightmaps, packet);
    if !ok { return; }
    ghost var data1 := packet.data;
    ok := EmitBiomes(l, c.flags.groundUp, c.biomes, packet);
    if ok {
      ghost var data2 := packet.data;
      ok := EmitTail(l, c.data, c.auxiliary, packet);
      EmittedBoth(data1, biomes, data2, tail, packet.capacity, ok, packet.data);
    }
    EmittedBoth(data0, heightmaps, data1, Both(biomes, tail), packet.capacity, ok, packet.data);
  }

  /** The rendered encoder of a layout: it succeeds exactly for the chunks that have an encoding, given room for it,
    * and then writes that encoding. */
  method EncodeChunk(nbt: Nbt, l: Layout, c: Chunk, packet: P.PacketWriter) returns (ok: bool)
    requires packet.Valid() && HasCTypes(c)
    modifies packet
    ensures packet.Valid()
    ensures old(packet.failed) ==> !ok
    ensures !old(packet.failed) ==> Emitted(old(packet.data), Encoded(nbt, l, c), packet.capacity, ok, packet.data)
  {
    if packet.failed { return false; }
    ghost var position, flags, body := PositionBytes(c.x, c.z), FlagsBytes(l, c.flags), BodyBytes(nbt, l, c);
    ghost var data0 := packet.data;
    ok := Emit(packet, PositionBytes(c.x, c.z));
    if !ok { return; }
    ghost var data1 := packet.data;
    ok := EmitFlags(l, c.flags, packet);
    if ok {
      ghost var data2 := packet.data;
      ok := EmitBody(nbt, l, c, packet);
      EmittedBoth(data1, flags, data2, body, packet.capacity, ok, packet.data);
    }
    EmittedBoth(data0, Some(position), data1, Both(flags, body), packet.capacity, ok, packet.data);
  }
}
