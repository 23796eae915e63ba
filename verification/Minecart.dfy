/** The minecart metadata packet in its three layouts: an entity id, then tagged entries in any order, then a
  * terminator. */
module Minecart {
  import opened Bytes
  import opened Wrappers
  import opened Primitives

  datatype Layout = Packed | StateAndFlag | OptionalState

  /** The entity id's wire follows the packet's schema; the layout and all the numbers follow the protocol. */
  datatype Config = Config(protocol: int, entityIsVarInt: bool)

  function LayoutOf(c: Config): Layout {
    if c.protocol <= 47 then Packed else if c.protocol < 770 then StateAndFlag else OptionalState
  }

  function FirstIndex(c: Config): nat {
    if c.protocol <= 47 then 17
    else if c.protocol <= 110 then 5
    else if c.protocol <= 404 then 6
    else if c.protocol <= 754 then 7
    else 8
  }

  predicate HasFlag(c: Config) {
    !LayoutOf(c).OptionalState?
  }

  /** What an entry can carry. `State` and `Flag` together are the custom display block where the layout has both. */
  datatype Slot = HurtTime | HurtDirection | Damage | State | Offset | Flag

  function IndexOf(c: Config, slot: Slot): nat {
    FirstIndex(c) + match slot
                    case HurtTime => 0
                    case HurtDirection => 1
                    case Damage => 2
                    case State => 3
                    case Offset => 4
                    case Flag => 5
  }

  function SlotAt(c: Config, index: nat): Option<Slot> {
    if index == IndexOf(c, HurtTime) then Some(HurtTime)
    else if index == IndexOf(c, HurtDirection) then Some(HurtDirection)
    else if index == IndexOf(c, Damage) then Some(Damage)
    else if index == IndexOf(c, State) then Some(State)
    else if index == IndexOf(c, Offset) then Some(Offset)
    else if HasFlag(c) && index == IndexOf(c, Flag) then Some(Flag)
    else None
  }

  function IntSerializer(c: Config): nat {
    if LayoutOf(c).Packed? then 2 else 1
  }

  function SerializerOf(c: Config, slot: Slot): nat {
    match slot
    case Damage => if LayoutOf(c).Packed? || c.protocol >= 761 then 3 else 2
    case State => if HasFlag(c) then IntSerializer(c) else 15
    case Flag => if LayoutOf(c).Packed? then 0 else if c.protocol <= 340 then 6 else if c.protocol <= 760 then 7 else 8
    case _ => IntSerializer(c)
  }

  const PACKED_END: byte := 0x7f
  const PLAIN_END: byte := 0xff

  function Terminator(c: Config): byte {
    if LayoutOf(c).Packed? then PACKED_END else PLAIN_END
  }

  datatype Entry = Entry(slot: Slot, value: int)

  predicate ValidValue(c: Config, slot: Slot, value: int) {
    match slot
    case Damage => 0 <= value < WORD && IsFinite32(value)
    case State => IsInt32(value) && value >= 0
    case Flag => HasFlag(c) && 0 <= value <= 1
    case _ => IsInt32(value)
  }

  predicate ValidEntry(c: Config, e: Entry) {
    ValidValue(c, e.slot, e.value)
  }

  // Entries on the wire.

  function HeaderBytes(c: Config, slot: Slot): (s: seq<byte>)
    requires slot.Flag? ==> HasFlag(c)
  {
    var index, serializer := IndexOf(c, slot), SerializerOf(c, slot);
    if LayoutOf(c).Packed? then [serializer * 32 + index]
    else if c.protocol <= 340 then [index, serializer]
    else [index] + VarIntBytes(serializer)
  }

  function ValueBytes(c: Config, slot: Slot, value: int): seq<byte>
    requires ValidValue(c, slot, value)
  {
    match slot
    case Damage => WordBytes(value)
    case Flag => [value]
    case _ => if LayoutOf(c).Packed? then I32Bytes(value) else VarIntBytes(value)
  }

  function EntryBytes(c: Config, e: Entry): seq<byte>
    requires ValidEntry(c, e)
  {
    HeaderBytes(c, e.slot) + ValueBytes(c, e.slot, e.value)
  }

  /** The front of an entry: its index and serializer, or the terminator. */
  datatype Header = NoHeader | End(size: nat) | Tagged(index: nat, serializer: int, size: nat)

  function ReadHeader(c: Config, s: seq<byte>): (h: Header)
    ensures !h.NoHeader? ==> 0 < h.size <= |s|
  {
    if s == [] then NoHeader
    else if s[0] == Terminator(c) then End(1)
    else if LayoutOf(c).Packed? then Tagged(s[0] % 32, s[0] / 32, 1)
    else if c.protocol <= 340 then if |s| < 2 then NoHeader else Tagged(s[0], s[1], 2)
    else
      var r := VarInt32(s[1..]);
      if r.NoValue? then NoHeader else Tagged(s[0], r.value, 1 + r.size)
  }

  function ReadValue(c: Config, slot: Slot, s: seq<byte>): (r: Parsed)
    ensures r.Got? ==> 0 < r.size <= |s|
  {
    var r := match slot
      case Damage => Word(s)
      case Flag => if LayoutOf(c).Packed? then U8(s) else Bool(s)
      case _ => if LayoutOf(c).Packed? then I32(s) else VarInt32(s);
    r
  }

  datatype ParsedEntry = BadEntry | EndOfEntries(rest: seq<byte>) | Parsed(entry: Entry, rest: seq<byte>)

  function ParseEntry(c: Config, s: seq<byte>): (p: ParsedEntry)
    ensures !p.BadEntry? ==> |p.rest| < |s|
    ensures p.Parsed? ==> ValidEntry(c, p.entry)
  {
    match ReadHeader(c, s)
    case NoHeader => BadEntry
    case End(n) => EndOfEntries(s[n..])
    case Tagged(index, serializer, n) =>
      var slot := SlotAt(c, index);
      if slot.None? || serializer != SerializerOf(c, slot.value) then BadEntry else
        var r := ReadValue(c, slot.value, s[n..]);
        if r.NoValue? || !ValidValue(c, slot.value, r.value) then BadEntry
        else Parsed(Entry(slot.value, r.value), s[n + r.size..])
  }

  /** A complete entry list: known entries up to a terminator that ends the input. */
  function ParseEntries(c: Config, s: seq<byte>): (r: Option<seq<Entry>>)
    ensures r.Some? ==> forall e <- r.value :: ValidEntry(c, e)
    decreases |s|
  {
    match ParseEntry(c, s)
    case BadEntry => None
    case EndOfEntries(rest) => if rest == [] then Some([]) else None
    case Parsed(e, rest) =>
      var tail := ParseEntries(c, rest);
      if tail.None? then None else Some([e] + tail.value)
  }

  lemma HeaderComesBack(c: Config, slot: Slot, t: seq<byte>)
    requires slot.Flag? ==> HasFlag(c)
    ensures var h := HeaderBytes(c, slot);
            ReadHeader(c, h + t) == Tagged(IndexOf(c, slot), SerializerOf(c, slot), |h|)
            && SlotAt(c, IndexOf(c, slot)) == Some(slot)
  {
    var h := HeaderBytes(c, slot);
    if !LayoutOf(c).Packed? && c.protocol > 340 {
      var serializer := SerializerOf(c, slot);
      VarIntComesBack(serializer, t);
      assert (h + t)[1..] == VarIntBytes(serializer) + t;
    }
  }

  lemma ValueComesBack(c: Config, slot: Slot, value: int, t: seq<byte>)
    requires ValidValue(c, slot, value)
    ensures ReadValue(c, slot, ValueBytes(c, slot, value) + t) == Got(value, |ValueBytes(c, slot, value)|)
  {
    match slot
    case Damage => WordComesBack(value, t);
    case Flag =>
    case _ => if LayoutOf(c).Packed? { I32ComesBack(value, t); } else { VarIntComesBack(value, t); }
  }

  lemma EntryComesBack(c: Config, e: Entry, t: seq<byte>)
    requires ValidEntry(c, e)
    ensures ParseEntry(c, EntryBytes(c, e) + t) == Parsed(e, t)
  {
    var h, v := HeaderBytes(c, e.slot), ValueBytes(c, e.slot, e.value);
    var s := EntryBytes(c, e) + t;
    assert s == h + (v + t);
    HeaderComesBack(c, e.slot, v + t);
    ValueComesBack(c, e.slot, e.value, t);
    assert s[|h|..] == v + t;
    assert s[|h| + |v|..] == t;
  }

  // The packet.

  /** The fields a packet selects. The C mask has one bit for each; `otherBits` stands for any bit besides. */
  datatype Field = HurtTimeField | HurtDirectionField | DamageField | CustomDisplayBlockField | DisplayOffsetField

  /** `damage` is the bit pattern of the float. */
  datatype Metadata = Metadata(entityId: int, fields: set<Field>, otherBits: bool, hurtTime: int, hurtDirection: int,
                               damage: int, displayBlockState: int, hasCustomDisplayBlock: bool, displayOffset: int)

  predicate HasCTypes(v: Metadata) {
    && IsInt32(v.entityId) && IsInt32(v.hurtTime) && IsInt32(v.hurtDirection) && 0 <= v.damage < WORD
    && IsInt32(v.displayBlockState) && IsInt32(v.displayOffset)
  }

  function EntityBytes(c: Config, id: int): (s: seq<byte>)
    requires IsInt32(id)
    ensures s != []
  {
    if c.entityIsVarInt then VarIntBytes(id) else I32Bytes(id)
  }

  function ReadEntity(c: Config, s: seq<byte>): (r: Parsed)
    ensures r.Got? ==> 0 < r.size <= |s|
  {
    if c.entityIsVarInt then VarInt32(s) else I32(s)
  }

  function Get(m: map<Slot, int>, slot: Slot): int {
    if slot in m then m[slot] else 0
  }

  function SlotFor(f: Field): Slot {
    match f
    case HurtTimeField => HurtTime
    case HurtDirectionField => HurtDirection
    case DamageField => Damage
    case CustomDisplayBlockField => State
    case DisplayOffsetField => Offset
  }

  function FieldsIn(m: map<Slot, int>): set<Field> {
    set f: Field | SlotFor(f) in m
  }

  /** The values that a set of entries gives to the fields. */
  function Build(c: Config, entityId: int, m: map<Slot, int>): Metadata {
    Metadata(entityId, FieldsIn(m), false, Get(m, HurtTime), Get(m, HurtDirection), Get(m, Damage), Get(m, State),
             if HasFlag(c) then Get(m, Flag) != 0 else Get(m, State) != 0, Get(m, Offset))
  }

  /** Besides the flag there must be an entry, and the flag comes exactly with the state. */
  predicate Complete(c: Config, m: map<Slot, int>) {
    FieldsIn(m) != {} && (HasFlag(c) ==> (State in m <==> Flag in m))
  }

  ghost predicate Distinct(es: seq<Entry>) {
    forall i, j :: 0 <= i < j < |es| ==> es[i].slot != es[j].slot
  }

  /** The entries as a mapping; later entries would win, but a decoder refuses repetitions. */
  function Collect(es: seq<Entry>): map<Slot, int> {
    if es == [] then map[] else Collect(es[..|es| - 1])[es[|es| - 1].slot := es[|es| - 1].value]
  }

  /** What decoding means: a positive entity id, then a complete list of distinct entries. */
  ghost function Decode(c: Config, s: seq<byte>): Option<Metadata> {
    var id := ReadEntity(c, s);
    if id.NoValue? || id.value <= 0 then None else
      var es := ParseEntries(c, s[id.size..]);
      if es.None? || !Distinct(es.value) || !Complete(c, Collect(es.value)) then None
      else Some(Build(c, id.value, Collect(es.value)))
  }

  // Order does not matter.

  lemma {:induction false} CollectIs(es: seq<Entry>)
    requires Distinct(es)
    ensures forall slot, value :: (slot in Collect(es) && Collect(es)[slot] == value) <==> Entry(slot, value) in es
  {
    if es != [] {
      var last, before := es[|es| - 1], es[..|es| - 1];
      assert es == before + [last];
      CollectIs(before);
      forall e <- before ensures e.slot != last.slot {
        var i :| 0 <= i < |before| && before[i] == e;
        assert es[i] == e;
      }
      forall slot, value
        ensures (slot in Collect(es) && Collect(es)[slot] == value) <==> Entry(slot, value) in es
      {
        if slot != last.slot { assert Entry(slot, value) in es <==> Entry(slot, value) in before; }
      }
    }
  }

  lemma {:induction false} OnceInDistinct(es: seq<Entry>, e: Entry)
    requires Distinct(es)
    ensures multiset(es)[e] <= 1
    ensures forall d <- es :: d.slot == e.slot && e in es ==> d == e
  {
    if es != [] {
      var last, before := es[|es| - 1], es[..|es| - 1];
      assert es == before + [last];
      OnceInDistinct(before, e);
      forall d <- before ensures d.slot != last.slot {
        var i :| 0 <= i < |before| && before[i] == d;
        assert es[i] == d;
      }
      if e == last { assert e !in before; }
    }
  }

  lemma TwiceInSequence(es: seq<Entry>, i: nat, j: nat)
    requires i < j < |es| && es[i] == es[j]
    ensures multiset(es)[es[i]] >= 2
  {
    assert es == es[..i] + [es[i]] + es[i + 1..j] + [es[j]] + es[j + 1..];
  }

  lemma DistinctByCount(es: seq<Entry>, fs: seq<Entry>)
    requires multiset(es) == multiset(fs) && Distinct(es)
    ensures Distinct(fs)
  {
    forall i, j | 0 <= i < j < |fs| ensures fs[i].slot != fs[j].slot {
      assert fs[i] in multiset(es) && fs[j] in multiset(es);
      OnceInDistinct(es, fs[i]);
      if fs[i] == fs[j] { TwiceInSequence(fs, i, j); }
    }
  }

  /** Any permutation of an entry list is accepted alike and decodes to the same value. */
  lemma EntriesAreOrderFree(c: Config, entityId: int, es: seq<Entry>, fs: seq<Entry>)
    requires multiset(es) == multiset(fs)
    ensures Distinct(es) <==> Distinct(fs)
    ensures Distinct(es) ==> Collect(es) == Collect(fs)
  {
    if Distinct(es) { DistinctByCount(es, fs); }
    if Distinct(fs) { DistinctByCount(fs, es); }
    if Distinct(es) {
      CollectIs(es);
      CollectIs(fs);
      var m, n := Collect(es), Collect(fs);
      forall slot <- m ensures slot in n && n[slot] == m[slot] {
        assert Entry(slot, m[slot]) in es;
        assert Entry(slot, m[slot]) in multiset(es);
      }
      forall slot <- n ensures slot in m {
        assert Entry(slot, n[slot]) in fs;
        assert Entry(slot, n[slot]) in multiset(fs);
      }
    }
  }

  function ListBytes(c: Config, es: seq<Entry>): seq<byte>
    requires forall e <- es :: ValidEntry(c, e)
  {
    if es == [] then [Terminator(c)] else EntryBytes(c, es[0]) + ListBytes(c, es[1..])
  }

  ghost predicate ParsesAs(c: Config, s: seq<byte>, es: seq<Entry>) {
    ParseEntries(c, s) == Some(es)
  }

  lemma ParsesFirst(c: Config, s: seq<byte>, e: Entry, rest: seq<byte>, es: seq<Entry>)
    requires ParseEntry(c, s) == Parsed(e, rest) && ParsesAs(c, rest, es)
    ensures ParsesAs(c, s, [e] + es)
  {}

  lemma NothingParses(c: Config)
    ensures ParsesAs(c, [Terminator(c)], [])
  {
    var s := [Terminator(c)];
    assert ReadHeader(c, s) == End(1) && s[1..] == [];
    assert ParseEntry(c, s) == EndOfEntries([]);
  }

  lemma OneMoreParses(c: Config, e: Entry, s: seq<byte>, es: seq<Entry>)
    requires ValidEntry(c, e) && ParsesAs(c, s, es)
    ensures ParsesAs(c, EntryBytes(c, e) + s, [e] + es)
  {
    EntryComesBack(c, e, s);
    ParsesFirst(c, EntryBytes(c, e) + s, e, s, es);
  }

  lemma {:induction false} ListComesBack(c: Config, es: seq<Entry>)
    requires forall e <- es :: ValidEntry(c, e)
    ensures ParsesAs(c, ListBytes(c, es), es)
  {
    if es == [] {
      NothingParses(c);
    } else {
      ListComesBack(c, es[1..]);
      OneMoreParses(c, es[0], ListBytes(c, es[1..]), es[1..]);
      assert [es[0]] + es[1..] == es;
    }
  }

  lemma EntityComesBack(c: Config, id: int, t: seq<byte>)
    requires IsInt32(id)
    ensures ReadEntity(c, EntityBytes(c, id) + t) == Got(id, |EntityBytes(c, id)|)
  {
    if c.entityIsVarInt { VarIntComesBack(id, t); } else { I32ComesBack(id, t); }
  }

  /** The decoder accepts an entity id with a terminated list of known entries, written in any order, exactly when
    * the id is positive and the entries are distinct and complete; the value does not depend on the order. */
  lemma DecodesListsInAnyOrder(c: Config, id: int, es: seq<Entry>, fs: seq<Entry>)
    requires IsInt32(id) && multiset(es) == multiset(fs)
    requires (forall e <- es :: ValidEntry(c, e)) && forall e <- fs :: ValidEntry(c, e)
    ensures Decode(c, EntityBytes(c, id) + ListBytes(c, fs))
         == if id > 0 && Distinct(es) && Complete(c, Collect(es)) then Some(Build(c, id, Collect(es))) else None
  {
    var head, tail := EntityBytes(c, id), ListBytes(c, fs);
    EntityComesBack(c, id, tail);
    assert (head + tail)[|head|..] == tail;
    ListComesBack(c, fs);
    EntriesAreOrderFree(c, id, es, fs);
  }

  // Encoding.

  /** What the encoder accepts. */
  predicate Accepts(c: Config, v: Metadata)
    requires HasCTypes(v)
  {
    && v.entityId > 0 && v.fields != {} && !v.otherBits && IsFinite32(v.damage) && v.displayBlockState >= 0
    && (!HasFlag(c) ==> !(v.hasCustomDisplayBlock && v.displayBlockState == 0))
  }

  /** The state that is written: zero unless the display is on. */
  function ShownState(v: Metadata): int {
    if v.hasCustomDisplayBlock then v.displayBlockState else 0
  }

  /** Whether an entry is written, and with which value. */
  predicate Selects(c: Config, v: Metadata, slot: Slot) {
    match slot
    case HurtTime => HurtTimeField in v.fields
    case HurtDirection => HurtDirectionField in v.fields
    case Damage => DamageField in v.fields
    case State => CustomDisplayBlockField in v.fields
    case Offset => DisplayOffsetField in v.fields
    case Flag => CustomDisplayBlockField in v.fields && HasFlag(c)
  }

  function EntryOf(v: Metadata, slot: Slot): Entry {
    Entry(slot, match slot
                case HurtTime => v.hurtTime
                case HurtDirection => v.hurtDirection
                case Damage => v.damage
                case State => ShownState(v)
                case Offset => v.displayOffset
                case Flag => if v.hasCustomDisplayBlock then 1 else 0)
  }

  /** The order in which entries are written. */
  const ALL_SLOTS: seq<Slot> := [HurtTime, HurtDirection, Damage, State, Offset, Flag]

  /** The entries of a value, in the order they are written. */
  function EntriesOf(c: Config, v: Metadata): seq<Entry> {
    EntriesFor(c, v, ALL_SLOTS)
  }

  function EntriesFor(c: Config, v: Metadata, slots: seq<Slot>): seq<Entry> {
    if slots == [] then []
    else (if Selects(c, v, slots[0]) then [EntryOf(v, slots[0])] else []) + EntriesFor(c, v, slots[1..])
  }

  lemma OneMoreIsDistinct(e: Entry, es: seq<Entry>)
    requires Distinct(es) && forall x <- es :: x.slot != e.slot
    ensures Distinct([e] + es)
  {
    forall j | 0 <= j < |es| ensures es[j].slot != e.slot { assert es[j] in es; }
  }

  lemma {:induction false} EntriesForAre(c: Config, v: Metadata, slots: seq<Slot>)
    requires forall i, j :: 0 <= i < j < |slots| ==> slots[i] != slots[j]
    ensures var es := EntriesFor(c, v, slots);
            && Distinct(es)
            && forall e :: e in es <==> e.slot in slots && Selects(c, v, e.slot) && e == EntryOf(v, e.slot)
  {
    if slots != [] {
      EntriesForAre(c, v, slots[1..]);
      var tail := EntriesFor(c, v, slots[1..]);
      assert slots == [slots[0]] + slots[1..];
      if Selects(c, v, slots[0]) {
        OneMoreIsDistinct(EntryOf(v, slots[0]), tail);
      }
    }
  }

  lemma EntriesAre(c: Config, v: Metadata)
    ensures Distinct(EntriesOf(c, v))
    ensures forall e :: e in EntriesOf(c, v) <==> Selects(c, v, e.slot) && e == EntryOf(v, e.slot)
  {
    var slots := ALL_SLOTS;
    EntriesForAre(c, v, slots);
    assert slots[0] == HurtTime && slots[1] == HurtDirection && slots[2] == Damage;
    assert slots[3] == State && slots[4] == Offset && slots[5] == Flag;
    forall slot: Slot ensures slot in slots {
      match slot
      case HurtTime =>
      case HurtDirection =>
      case Damage =>
      case State =>
      case Offset =>
      case Flag =>
    }
  }

  lemma EntriesAreValid(c: Config, v: Metadata)
    requires HasCTypes(v) && Accepts(c, v)
    ensures forall e <- EntriesOf(c, v) :: ValidEntry(c, e)
  {
    EntriesAre(c, v);
  }

  function Encoded(c: Config, v: Metadata): seq<byte>
    requires HasCTypes(v) && Accepts(c, v)
  {
    EntriesAreValid(c, v);
    EntityBytes(c, v.entityId) + ListBytes(c, EntriesOf(c, v))
  }

  /** What survives: selected fields, and the block state only while it is displayed. */
  function Normal(v: Metadata): Metadata {
    var display := CustomDisplayBlockField in v.fields && v.hasCustomDisplayBlock;
    v.(otherBits := false,
       hurtTime := if HurtTimeField in v.fields then v.hurtTime else 0,
       hurtDirection := if HurtDirectionField in v.fields then v.hurtDirection else 0,
       damage := if DamageField in v.fields then v.damage else 0,
       hasCustomDisplayBlock := display,
       displayBlockState := if display then v.displayBlockState else 0,
       displayOffset := if DisplayOffsetField in v.fields then v.displayOffset else 0)
  }

  /** The collected entries are the selected ones, with the values they are written with. */
  ghost predicate IsSelection(c: Config, v: Metadata, m: map<Slot, int>) {
    forall slot :: (slot in m <==> Selects(c, v, slot)) && (slot in m ==> m[slot] == EntryOf(v, slot).value)
  }

  lemma EntriesAreTheSelection(c: Config, v: Metadata)
    ensures IsSelection(c, v, Collect(EntriesOf(c, v)))
  {
    var es := EntriesOf(c, v);
    EntriesAre(c, v);
    CollectIs(es);
    var m := Collect(es);
    forall slot ensures (slot in m <==> Selects(c, v, slot)) && (slot in m ==> m[slot] == EntryOf(v, slot).value) {
      if slot in m { assert Entry(slot, m[slot]) in es; }
      if Selects(c, v, slot) { assert EntryOf(v, slot) in es; }
    }
  }

  lemma SelectedFields(c: Config, v: Metadata, m: map<Slot, int>)
    requires HasCTypes(v) && Accepts(c, v) && IsSelection(c, v, m)
    ensures FieldsIn(m) == v.fields
  {
    forall f ensures f in FieldsIn(m) <==> f in v.fields {
      assert SlotFor(f) in m <==> Selects(c, v, SlotFor(f));
    }
  }

  lemma BuildOfSelection(c: Config, v: Metadata, m: map<Slot, int>)
    requires HasCTypes(v) && Accepts(c, v) && IsSelection(c, v, m) && FieldsIn(m) == v.fields
    ensures Complete(c, m) && Build(c, v.entityId, m) == Normal(v)
  {
    assert HurtTime in m <==> HurtTimeField in v.fields;
    assert HurtDirection in m <==> HurtDirectionField in v.fields;
    assert Damage in m <==> DamageField in v.fields;
    assert Offset in m <==> DisplayOffsetField in v.fields;
    assert State in m <==> CustomDisplayBlockField in v.fields;
  }

  lemma BuildOfEntries(c: Config, v: Metadata)
    requires HasCTypes(v) && Accepts(c, v)
    ensures var m := Collect(EntriesOf(c, v));
            Complete(c, m) && Build(c, v.entityId, m) == Normal(v)
  {
    var m := Collect(EntriesOf(c, v));
    EntriesAreTheSelection(c, v);
    SelectedFields(c, v, m);
    BuildOfSelection(c, v, m);
  }

  /** Whatever the encoder accepts decodes to its normal form, in every layout and protocol. */
  lemma EncodedComesBack(c: Config, v: Metadata)
    requires HasCTypes(v) && Accepts(c, v)
    ensures Decode(c, Encoded(c, v)) == Some(Normal(v))
  {
    var es := EntriesOf(c, v);
    EntriesAreValid(c, v);
    EntriesAre(c, v);
    DecodesListsInAnyOrder(c, v.entityId, es, es);
    BuildOfEntries(c, v);
  }

  /** Whatever the decoder accepts can be encoded again, and then decodes to its normal form. */
  lemma DecodedCanBeEncoded(c: Config, s: seq<byte>)
    requires Decode(c, s).Some?
    ensures var v := Decode(c, s).value;
            HasCTypes(v) && Accepts(c, v) && Decode(c, Encoded(c, v)) == Some(Normal(v))
  {
    var id := ReadEntity(c, s);
    var es := ParseEntries(c, s[id.size..]).value;
    var m := Collect(es);
    var v := Decode(c, s).value;
    CollectIs(es);
    forall slot <- m ensures ValidValue(c, slot, m[slot]) {
      assert Entry(slot, m[slot]) in es;
      assert ValidEntry(c, Entry(slot, m[slot]));
    }
    assert HasCTypes(v) && Accepts(c, v);
    EncodedComesBack(c, v);
  }

  // The decoder's loop.

  /** The rest of the decoder's loop, with the entries met so far. */
  function Continue(c: Config, m: map<Slot, int>, s: seq<byte>): Option<map<Slot, int>>
    decreases |s|
  {
    match ParseEntry(c, s)
    case BadEntry => None
    case EndOfEntries(rest) => if rest == [] then Some(m) else None
    case Parsed(e, rest) => if e.slot in m then None else Continue(c, m[e.slot := e.value], rest)
  }

  /** What a list comes to, when the entries `es` have been met and the rest reads as `rest`. */
  ghost function Expected(es: seq<Entry>, rest: Option<seq<Entry>>): Option<map<Slot, int>> {
    if rest.Some? && Distinct(es + rest.value) then Some(Collect(es + rest.value)) else None
  }

  ghost predicate ContinuesAs(c: Config, es: seq<Entry>, s: seq<byte>) {
    Continue(c, Collect(es), s) == Expected(es, ParseEntries(c, s))
  }

  lemma ExpectedMoves(es: seq<Entry>, e: Entry, tail: seq<Entry>)
    ensures Expected(es, Some([e] + tail)) == Expected(es + [e], Some(tail))
  {
    assert es + ([e] + tail) == es + [e] + tail;
  }

  lemma RepeatedIsNotDistinct(es: seq<Entry>, e: Entry, tail: seq<Entry>)
    requires Distinct(es) && e.slot in Collect(es)
    ensures !Distinct(es + ([e] + tail))
  {
    CollectIs(es);
    var met := Entry(e.slot, Collect(es)[e.slot]);
    assert met in es;
    var i :| 0 <= i < |es| && es[i] == met;
    var all := es + ([e] + tail);
    assert all[i].slot == all[|es|].slot;
  }

  lemma FreshIsDistinct(es: seq<Entry>, e: Entry)
    requires Distinct(es) && e.slot !in Collect(es)
    ensures Distinct(es + [e]) && Collect(es + [e]) == Collect(es)[e.slot := e.value]
  {
    CollectIs(es);
    forall i | 0 <= i < |es| ensures es[i].slot != e.slot { assert Entry(es[i].slot, es[i].value) in es; }
    assert (es + [e])[..|es|] == es;
  }

  lemma NextContinues(c: Config, es: seq<Entry>, s: seq<byte>, e: Entry, rest: seq<byte>, tail: Option<seq<Entry>>)
    requires Distinct(es) && ParseEntry(c, s) == Parsed(e, rest) && tail == ParseEntries(c, rest)
    requires e.slot !in Collect(es) ==> Continue(c, Collect(es + [e]), rest) == Expected(es + [e], tail)
    ensures ContinuesAs(c, es, s)
  {
    if tail.Some? { ExpectedMoves(es, e, tail.value); }
    if e.slot in Collect(es) {
      if tail.Some? { RepeatedIsNotDistinct(es, e, tail.value); }
    } else {
      FreshIsDistinct(es, e);
    }
  }

  lemma {:induction false} ContinueIsDecode(c: Config, es: seq<Entry>, s: seq<byte>)
    requires Distinct(es)
    ensures ContinuesAs(c, es, s)
    decreases |s|
  {
    var p := ParseEntry(c, s);
    if p.EndOfEntries? {
      assert es + [] == es;
    } else if p.Parsed? {
      if p.entry.slot !in Collect(es) {
        FreshIsDistinct(es, p.entry);
        ContinueIsDecode(c, es + [p.entry], p.rest);
      }
      NextContinues(c, es, s, p.entry, p.rest, ParseEntries(c, p.rest));
    }
  }

  /** The decoder's variables: the value so far, the mask of fields seen, and the two flags of the display block. */
  datatype Progress = Progress(decoded: Metadata, seen: set<Field>, sawState: bool, sawFlag: bool)

  /** The variables hold what the entries met so far say. */
  ghost predicate Tracks(c: Config, id: int, p: Progress, m: map<Slot, int>) {
    && p.seen == FieldsIn(m) && p.sawState == (State in m) && p.sawFlag == (Flag in m)
    && p.decoded == Build(c, id, m).(fields := {})
  }

  /** The check for a repeated index in each case of the switch. */
  predicate IsRepeated(p: Progress, slot: Slot) {
    match slot
    case HurtTime => HurtTimeField in p.seen
    case HurtDirection => HurtDirectionField in p.seen
    case Damage => DamageField in p.seen
    case State => p.sawState
    case Offset => DisplayOffsetField in p.seen
    case Flag => p.sawFlag
  }

  /** The assignments in each case of the switch. */
  function Store(c: Config, p: Progress, slot: Slot, value: int): Progress {
    match slot
    case HurtTime => p.(decoded := p.decoded.(hurtTime := value), seen := p.seen + {HurtTimeField})
    case HurtDirection => p.(decoded := p.decoded.(hurtDirection := value), seen := p.seen + {HurtDirectionField})
    case Damage => p.(decoded := p.decoded.(damage := value), seen := p.seen + {DamageField})
    case State =>
      var shown := if HasFlag(c) then p.decoded.hasCustomDisplayBlock else value != 0;
      p.(decoded := p.decoded.(displayBlockState := value, hasCustomDisplayBlock := shown),
         sawState := true, seen := p.seen + {CustomDisplayBlockField})
    case Offset => p.(decoded := p.decoded.(displayOffset := value), seen := p.seen + {DisplayOffsetField})
    case Flag => p.(decoded := p.decoded.(hasCustomDisplayBlock := value != 0), sawFlag := true)
  }

  lemma StoreTracks(c: Config, id: int, p: Progress, m: map<Slot, int>, slot: Slot, value: int)
    requires Tracks(c, id, p, m) && (slot.Flag? ==> HasFlag(c))
    ensures IsRepeated(p, slot) <==> slot in m
    ensures Tracks(c, id, Store(c, p, slot, value), m[slot := value])
  {
    var m' := m[slot := value];
    var added := set f: Field | SlotFor(f) == slot;
    assert FieldsIn(m') == FieldsIn(m) + added;
    match slot
    case HurtTime => assert added == {HurtTimeField}; assert HurtTimeField in FieldsIn(m) <==> slot in m;
    case HurtDirection => assert added == {HurtDirectionField}; assert HurtDirectionField in FieldsIn(m) <==> slot in m;
    case Damage => assert added == {DamageField}; assert DamageField in FieldsIn(m) <==> slot in m;
    case State => assert added == {CustomDisplayBlockField};
    case Offset => assert added == {DisplayOffsetField}; assert DisplayOffsetField in FieldsIn(m) <==> slot in m;
    case Flag => assert added == {};
  }

  lemma NothingTracked(c: Config, id: int)
    ensures Tracks(c, id, Progress(Metadata(id, {}, false, 0, 0, 0, 0, false, 0), {}, false, false), map[])
  {
    assert FieldsIn(map[]) == {};
  }

  lemma DecodeByLoop(c: Config, payload: seq<byte>)
    ensures var id := ReadEntity(c, payload);
            Decode(c, payload)
            == if id.NoValue? || id.value <= 0 then None else
                 var m := Continue(c, map[], payload[id.size..]);
                 if m.Some? && Complete(c, m.value) then Some(Build(c, id.value, m.value)) else None
  {
    var id := ReadEntity(c, payload);
    if id.Got? && id.value > 0 {
      var s := payload[id.size..];
      ContinueIsDecode(c, [], s);
      var rest := ParseEntries(c, s);
      if rest.Some? { assert [] + rest.value == rest.value; }
    }
  }

  /** One turn of the loop: the header, the switch, and the checks of the case. `size` is what it consumed. */
  datatype Turn = Failed | Ended(size: nat) | Stored(progress: Progress, size: nat)

  method DecodeEntry(c: Config, s: seq<byte>, p: Progress) returns (turn: Turn)
    ensures turn.Failed? <==> ParseEntry(c, s).BadEntry?
                              || (ParseEntry(c, s).Parsed? && IsRepeated(p, ParseEntry(c, s).entry.slot))
    ensures turn.Ended? ==> 0 < turn.size <= |s| && ParseEntry(c, s) == EndOfEntries(s[turn.size..])
    ensures turn.Stored? ==> 0 < turn.size <= |s| && ParseEntry(c, s).Parsed?
                             && ParseEntry(c, s).rest == s[turn.size..]
                             && turn.progress == Store(c, p, ParseEntry(c, s).entry.slot, ParseEntry(c, s).entry.value)
  {
    var header := ReadHeader(c, s);
    if header.NoHeader? { return Failed; }
    if header.End? { return Ended(header.size); }
    var slot := SlotAt(c, header.index);
    if slot.None? || header.serializer != SerializerOf(c, slot.value) { return Failed; }
    var r := ReadValue(c, slot.value, s[header.size..]);
    if IsRepeated(p, slot.value) || r.NoValue? || !ValidValue(c, slot.value, r.value) { return Failed; }
    return Stored(Store(c, p, slot.value, r.value), header.size + r.size);
  }

  lemma ContinueStep(c: Config, id: int, p: Progress, m: map<Slot, int>, s: seq<byte>)
    requires Tracks(c, id, p, m)
    ensures match ParseEntry(c, s)
            case BadEntry => Continue(c, m, s) == None
            case EndOfEntries(rest) => Continue(c, m, s) == if rest == [] then Some(m) else None
            case Parsed(e, rest) =>
              && (IsRepeated(p, e.slot) ==> Continue(c, m, s) == None)
              && (!IsRepeated(p, e.slot) ==> Continue(c, m, s) == Continue(c, m[e.slot := e.value], rest))
              && Tracks(c, id, Store(c, p, e.slot, e.value), m[e.slot := e.value])
  {
    var parsed := ParseEntry(c, s);
    if parsed.Parsed? { StoreTracks(c, id, p, m, parsed.entry.slot, parsed.entry.value); }
  }

  /** The rendered decoder. Entries may come in any order; each index is accepted once and with its serializer. */
  method DecodeMetadata(c: Config, payload: seq<byte>) returns (ok: bool, value: Metadata)
    ensures ok <==> Decode(c, payload).Some?
    ensures ok ==> Decode(c, payload) == Some(value)
  {
    value := Metadata(0, {}, false, 0, 0, 0, 0, false, 0);
    DecodeByLoop(c, payload);
    var id := ReadEntity(c, payload);
    if id.NoValue? || id.value <= 0 { return false, value; }
    var p := Progress(value.(entityId := id.value), {}, false, false);
    var rest, terminated := payload[id.size..], false;
    ghost var m: map<Slot, int>, all := map[], Continue(c, map[], rest);
    NothingTracked(c, id.value);
    while rest != []
      invariant terminated ==> all == if rest == [] then Some(m) else None
      invariant !terminated ==> all == Continue(c, m, rest)
      invariant Tracks(c, id.value, p, m)
      decreases |rest|
    {
      ghost var parsed := ParseEntry(c, rest);
      ContinueStep(c, id.value, p, m, rest);
      var turn := DecodeEntry(c, rest, p);
      if turn.Failed? { return false, value; }
      rest := rest[turn.size..];
      if turn.Ended? {
        terminated := true;
        break;
      }
      p, m := turn.progress, m[parsed.entry.slot := parsed.entry.value];
    }
    if !terminated || rest != [] || p.seen == {} { return false, value; }
    if HasFlag(c) && p.sawState != p.sawFlag { return false, value; }
    return true, p.decoded.(fields := p.seen);
  }

  // The encoder.

  /** What an entry adds to the packet. */
  function FieldBytes(c: Config, v: Metadata, slot: Slot): seq<byte>
    requires HasCTypes(v) && Accepts(c, v)
  {
    if Selects(c, v, slot) then EntryBytes(c, EntryOf(v, slot)) else []
  }

  function FieldsBytes(c: Config, v: Metadata, slots: seq<Slot>): seq<byte>
    requires HasCTypes(v) && Accepts(c, v)
  {
    if slots == [] then [] else FieldBytes(c, v, slots[0]) + FieldsBytes(c, v, slots[1..])
  }

  ghost predicate AllValid(c: Config, es: seq<Entry>) {
    forall e <- es :: ValidEntry(c, e)
  }

  /** These bytes and the terminator are the list. */
  ghost predicate IsList(c: Config, es: seq<Entry>, s: seq<byte>) {
    AllValid(c, es) && ListBytes(c, es) == s + [Terminator(c)]
  }

  lemma OneMoreEntry(c: Config, e: Entry, es: seq<Entry>, s: seq<byte>)
    requires ValidEntry(c, e) && IsList(c, es, s)
    ensures IsList(c, [e] + es, EntryBytes(c, e) + s)
  {
    var all := [e] + es;
    assert all[0] == e && all[1..] == es;
    assert EntryBytes(c, e) + s + [Terminator(c)] == EntryBytes(c, e) + (s + [Terminator(c)]);
  }

  lemma {:induction false} FieldsMakeTheList(c: Config, v: Metadata, slots: seq<Slot>)
    requires HasCTypes(v) && Accepts(c, v)
    ensures IsList(c, EntriesFor(c, v, slots), FieldsBytes(c, v, slots))
  {
    if slots != [] {
      FieldsMakeTheList(c, v, slots[1..]);
      var tail, s := EntriesFor(c, v, slots[1..]), FieldsBytes(c, v, slots[1..]);
      if Selects(c, v, slots[0]) {
        OneMoreEntry(c, EntryOf(v, slots[0]), tail, s);
      } else {
        assert [] + tail == tail && [] + s == s;
      }
    }
  }

  method EmitField(c: Config, packet: PacketWriter, v: Metadata, slot: Slot) returns (ok: bool)
    requires packet.Valid() && !packet.failed && HasCTypes(v) && Accepts(c, v)
    modifies packet
    ensures packet.Valid() && packet.failed == !ok
    ensures ok <==> |old(packet.data)| + |FieldBytes(c, v, slot)| <= packet.capacity
    ensures ok ==> Wrote(old(packet.data), FieldBytes(c, v, slot), packet.data)
  {
    ok := true;
    if Selects(c, v, slot) {
      ghost var before := packet.data;
      var header, value := HeaderBytes(c, slot), ValueBytes(c, slot, EntryOf(v, slot).value);
      ok := packet.Append(header);
      ghost var between := packet.data;
      if ok {
        ok := packet.Append(value);
        if ok { WroteBoth(before, header, between, value, packet.data); }
      }
    }
  }

  /** The fields one after the other, each with its own condition. */
  method EmitFields(c: Config, packet: PacketWriter, v: Metadata, slots: seq<Slot>) returns (ok: bool)
    requires packet.Valid() && !packet.failed && HasCTypes(v) && Accepts(c, v)
    modifies packet
    ensures packet.Valid() && packet.failed == !ok
    ensures ok <==> |old(packet.data)| + |FieldsBytes(c, v, slots)| <= packet.capacity
    ensures ok ==> Wrote(old(packet.data), FieldsBytes(c, v, slots), packet.data)
  {
    if slots == [] { return true; }
    ghost var before, head, tail := packet.data, FieldBytes(c, v, slots[0]), FieldsBytes(c, v, slots[1..]);
    ok := EmitField(c, packet, v, slots[0]);
    ghost var between := packet.data;
    if ok {
      ok := EmitFields(c, packet, v, slots[1..]);
      if ok { WroteBoth(before, head, between, tail, packet.data); }
    }
  }

  /** The rendered encoder: it refuses what it does not accept before writing anything, and otherwise writes the whole
    * encoding or, without room for it, fails the packet. */
  method EncodeMetadata(c: Config, packet: PacketWriter, v: Metadata) returns (ok: bool)
    requires packet.Valid() && HasCTypes(v)
    modifies packet
    ensures packet.Valid()
    ensures !Accepts(c, v) ==> !ok && packet.data == old(packet.data) && packet.failed == old(packet.failed)
    ensures Accepts(c, v) ==> packet.failed == !ok
    ensures Accepts(c, v) ==>
              (ok <==> !old(packet.failed) && |old(packet.data)| + |Encoded(c, v)| <= packet.capacity)
    ensures ok ==> Wrote(old(packet.data), Encoded(c, v), packet.data)
  {
    if !Accepts(c, v) { return false; }
    ghost var data0 := packet.data;
    EncodedSize(c, v);
    var slots := ALL_SLOTS;
    ok := packet.Append(EntityBytes(c, v.entityId));
    ghost var data1 := packet.data;
    if ok {
      ok := EmitFields(c, packet, v, slots);
    }
    ghost var data2 := packet.data;
    if ok {
      ok := packet.Append([Terminator(c)]);
    }
    if ok {
      EncodedWrites(c, v, data0, data1, data2, packet.data);
    }
  }

  lemma EncodedSize(c: Config, v: Metadata)
    requires HasCTypes(v) && Accepts(c, v)
    ensures |Encoded(c, v)| == |EntityBytes(c, v.entityId)| + |FieldsBytes(c, v, ALL_SLOTS)| + 1
  {
    FieldsMakeTheList(c, v, ALL_SLOTS);
  }

  lemma EncodedWrites(c: Config, v: Metadata, data0: seq<byte>, data1: seq<byte>, data2: seq<byte>, data3: seq<byte>)
    requires HasCTypes(v) && Accepts(c, v)
    requires Wrote(data0, EntityBytes(c, v.entityId), data1) && Wrote(data1, FieldsBytes(c, v, ALL_SLOTS), data2)
    requires Wrote(data2, [Terminator(c)], data3)
    ensures Wrote(data0, Encoded(c, v), data3)
  {
    FieldsMakeTheList(c, v, ALL_SLOTS);
    WroteBoth(data1, FieldsBytes(c, v, ALL_SLOTS), data2, [Terminator(c)], data3);
    WroteBoth(data0, EntityBytes(c, v.entityId), data1, FieldsBytes(c, v, ALL_SLOTS) + [Terminator(c)], data3);
  }
}
